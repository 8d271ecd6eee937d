/**
 * The relational part of `PrivateSlides`: the mutual-choice graph, each node's
 * split of its edges, the links formed and broken since the previous round,
 * the departed participants and their close friends.
 */
module RelationalFeatures {
  import opened Outcomes
  import opened DiGraphs

  // ---------------------------------------------------------------------
  // Mutual choices

  /** `filter_bidirectional`: the same nodes, and the edges whose reverse is also an edge. */
  function FilterBidirectional(g: DiGraph): (b: DiGraph)
    ensures b.nodes == g.nodes
    ensures forall u, v :: b.HasEdge(u, v) <==> g.HasEdge(u, v) && g.HasEdge(v, u)
  {
    DiGraph(g.nodes, set e | e in g.edges && (e.1, e.0) in g.edges)
  }

  /** The mutual-choice graph is symmetric, a subgraph of g, and valid when g is. */
  lemma BidirectionalShape(g: DiGraph)
    ensures var b := FilterBidirectional(g);
      && (forall u, v :: b.HasEdge(u, v) ==> b.HasEdge(v, u))
      && b.edges <= g.edges
      && (g.Valid() ==> b.Valid())
  {
  }

  /** Out-neighbours that chose the node back (line 71). */
  function Bidirectional(g: DiGraph, node: NodeId): (r: set<NodeId>)
    ensures forall v :: v in r <==> g.HasEdge(node, v) && g.HasEdge(v, node)
  {
    set v | v in g.OutNeighbours(node) && g.HasEdge(v, node)
  }

  /** Out-neighbours that did not choose the node back (line 72). */
  function UnidirectionalFrom(g: DiGraph, node: NodeId): (r: set<NodeId>)
    ensures forall v :: v in r <==> g.HasEdge(node, v) && !g.HasEdge(v, node)
  {
    set v | v in g.OutNeighbours(node) && !g.HasEdge(v, node)
  }

  /** In-neighbours the node did not choose (line 73). */
  function UnidirectionalTo(g: DiGraph, node: NodeId): (r: set<NodeId>)
    ensures forall u :: u in r <==> g.HasEdge(u, node) && !g.HasEdge(node, u)
  {
    set u | u in g.InNeighbours(node) && !g.HasEdge(node, u)
  }

  /**
   * Each out-neighbour is mutual or one-way-from, never both; each in-neighbour
   * is mutual or one-way-to, never both.
   */
  lemma EdgePartition(g: DiGraph, node: NodeId)
    ensures g.OutNeighbours(node) == Bidirectional(g, node) + UnidirectionalFrom(g, node)
    ensures Bidirectional(g, node) !! UnidirectionalFrom(g, node)
    ensures g.InNeighbours(node) == Bidirectional(g, node) + UnidirectionalTo(g, node)
    ensures Bidirectional(g, node) !! UnidirectionalTo(g, node)
  {
    var out, inn := g.OutNeighbours(node), g.InNeighbours(node);
    forall v | v in out ensures v in Bidirectional(g, node) + UnidirectionalFrom(g, node) {
      var e :| e in g.edges && e.0 == node && e.1 == v;
    }
    forall v | v in Bidirectional(g, node) + UnidirectionalFrom(g, node) ensures v in out {
      assert (node, v) in g.edges;
    }
    forall u | u in inn ensures u in Bidirectional(g, node) + UnidirectionalTo(g, node) {
      var e :| e in g.edges && e.0 == u && e.1 == node;
    }
    forall u | u in Bidirectional(g, node) + UnidirectionalTo(g, node) ensures u in inn {
      assert (u, node) in g.edges;
    }
  }

  // ---------------------------------------------------------------------
  // Changes since the previous round

  /**
   * `connections_formed` (lines 78-81): in-neighbours of the node in the current
   * mutual-choice graph with no edge either way in the previous round.
   */
  function Formed(cur: DiGraph, prev: DiGraph, node: NodeId): set<NodeId> {
    set u | u in FilterBidirectional(cur).InNeighbours(node) && !prev.HasEdge(u, node) && !prev.HasEdge(node, u)
  }

  /**
   * `connections_deformed` (lines 82-84): in-neighbours of the node in the previous
   * mutual-choice graph who have not departed and have no edge either way now.
   */
  function Deformed(cur: DiGraph, prev: DiGraph, departed: set<NodeId>, node: NodeId): set<NodeId> {
    set u | u in FilterBidirectional(prev).InNeighbours(node) && u !in departed
                && !cur.HasEdge(u, node) && !cur.HasEdge(node, u)
  }

  /** A link is formed exactly when it is mutual now and there was no edge either way before. */
  lemma FormedMeaning(cur: DiGraph, prev: DiGraph, node: NodeId, u: NodeId)
    ensures u in Formed(cur, prev, node) <==>
      cur.HasEdge(u, node) && cur.HasEdge(node, u) && !prev.Adjacent(u, node)
  {
    if cur.HasEdge(u, node) && cur.HasEdge(node, u) {
      assert (u, node) in FilterBidirectional(cur).edges;
    }
  }

  /** A link is broken exactly when it was mutual before, the other has not departed, and no edge is left. */
  lemma DeformedMeaning(cur: DiGraph, prev: DiGraph, departed: set<NodeId>, node: NodeId, u: NodeId)
    ensures u in Deformed(cur, prev, departed, node) <==>
      prev.HasEdge(u, node) && prev.HasEdge(node, u) && u !in departed && !cur.Adjacent(u, node)
  {
    if prev.HasEdge(u, node) && prev.HasEdge(node, u) {
      assert (u, node) in FilterBidirectional(prev).edges;
    }
  }

  /** Nobody is both a formed and a broken link of the same node. */
  lemma FormedDeformedDisjoint(cur: DiGraph, prev: DiGraph, departed: set<NodeId>, node: NodeId)
    ensures Formed(cur, prev, node) !! Deformed(cur, prev, departed, node)
  {
    forall u | u in Formed(cur, prev, node) ensures u !in Deformed(cur, prev, departed, node) {
      FormedMeaning(cur, prev, node, u);
      DeformedMeaning(cur, prev, departed, node, u);
    }
  }

  // ---------------------------------------------------------------------
  // Departed participants and their friends

  /** `pions` (line 40): identifiers of the first round missing from the last; no rounds is an `IndexError`. */
  function Departed(ids: seq<seq<NodeId>>): (r: Result<set<NodeId>>)
    ensures r.Ok? <==> ids != []
    ensures r.Err? ==> r.error == IndexError
    ensures r.Ok? ==> forall x :: x in r.value <==> x in ids[0] && x !in ids[|ids| - 1]
  {
    if ids == [] then Err(IndexError) else Ok(Members(ids[0]) - Members(ids[|ids| - 1]))
  }

  /** One survey round as `are_good_friends` reads it: identifier to number, number to chosen numbers. */
  datatype SurveyRound = SurveyRound(idToNum: map<NodeId, int>, numToChoices: map<int, seq<int>>)

  predicate Present(r: SurveyRound, a: NodeId, b: NodeId) {
    a in r.idToNum && b in r.idToNum
  }

  /** Every number of the round has a row of choices. */
  ghost predicate Complete(r: SurveyRound) {
    forall x :: x in r.idToNum ==> r.idToNum[x] in r.numToChoices
  }

  /** Both are present and each lists the other's number. */
  predicate Mutual(r: SurveyRound, a: NodeId, b: NodeId) {
    && Present(r, a, b)
    && r.idToNum[a] in r.numToChoices && r.idToNum[b] in r.numToChoices
    && r.idToNum[b] in r.numToChoices[r.idToNum[a]] && r.idToNum[a] in r.numToChoices[r.idToNum[b]]
  }

  /**
   * The value of `are_good_friends(a, b)` from round i on: false at the first round
   * either is absent, true at the first round both list each other; a missing row
   * of choices is a `KeyError` (the second row is only read when the first matches).
   */
  function GoodFriendsFrom(rounds: seq<SurveyRound>, a: NodeId, b: NodeId, i: nat): (r: Result<bool>)
    requires i <= |rounds|
    ensures r.Err? ==> r.error == KeyError
    decreases |rounds| - i
  {
    if i == |rounds| then Ok(false)
    else
      var rd := rounds[i];
      if !Present(rd, a, b) then Ok(false)
      else
        var na, nb := rd.idToNum[a], rd.idToNum[b];
        if na !in rd.numToChoices then Err(KeyError)
        else if nb !in rd.numToChoices[na] then GoodFriendsFrom(rounds, a, b, i + 1)
        else if nb !in rd.numToChoices then Err(KeyError)
        else if na in rd.numToChoices[nb] then Ok(true)
        else GoodFriendsFrom(rounds, a, b, i + 1)
  }

  /** `are_good_friends`: the rounds scanned in order with early returns. */
  method AreGoodFriends(rounds: seq<SurveyRound>, a: NodeId, b: NodeId) returns (r: Result<bool>)
    ensures r == GoodFriendsFrom(rounds, a, b, 0)
  {
    var i := 0;
    while i < |rounds|
      invariant 0 <= i <= |rounds|
      invariant GoodFriendsFrom(rounds, a, b, i) == GoodFriendsFrom(rounds, a, b, 0)
    {
      var rd := rounds[i];
      if a !in rd.idToNum || b !in rd.idToNum {
        return Ok(false);
      }
      var na := rd.idToNum[a];
      var nb := rd.idToNum[b];
      if na !in rd.numToChoices {
        return Err(KeyError);
      }
      if nb in rd.numToChoices[na] {
        if nb !in rd.numToChoices {
          return Err(KeyError);
        }
        if na in rd.numToChoices[nb] {
          return Ok(true);
        }
      }
      i := i + 1;
    }
    return Ok(false);
  }

  /**
   * With a row of choices for every number, the answer is defined, and it is true
   * exactly when some round has both people choosing each other and both are
   * present in every round up to it.
   */
  lemma {:induction false} GoodFriendsMeaning(rounds: seq<SurveyRound>, a: NodeId, b: NodeId, i: nat)
    requires i <= |rounds|
    requires forall j :: 0 <= j < |rounds| ==> Complete(rounds[j])
    ensures GoodFriendsFrom(rounds, a, b, i).Ok?
    ensures GoodFriendsFrom(rounds, a, b, i).value <==>
      exists k :: i <= k < |rounds| && (forall j :: i <= j <= k ==> Present(rounds[j], a, b)) && Mutual(rounds[k], a, b)
    decreases |rounds| - i
  {
    if i < |rounds| {
      var rd := rounds[i];
      if Present(rd, a, b) {
        assert rd.idToNum[a] in rd.numToChoices && rd.idToNum[b] in rd.numToChoices by {
          assert Complete(rd);
        }
        if Mutual(rd, a, b) {
          assert GoodFriendsFrom(rounds, a, b, i) == Ok(true);
          assert forall j :: i <= j <= i ==> Present(rounds[j], a, b);
        } else {
          GoodFriendsMeaning(rounds, a, b, i + 1);
          assert GoodFriendsFrom(rounds, a, b, i) == GoodFriendsFrom(rounds, a, b, i + 1);
          NotMutualHere(rounds, a, b, i);
        }
      }
    }
  }

  /** When round i is not mutual but both are present, a witness from i on is a witness from i + 1 on. */
  lemma NotMutualHere(rounds: seq<SurveyRound>, a: NodeId, b: NodeId, i: nat)
    requires i < |rounds| && Present(rounds[i], a, b) && !Mutual(rounds[i], a, b)
    ensures (exists k :: i <= k < |rounds| && (forall j :: i <= j <= k ==> Present(rounds[j], a, b)) && Mutual(rounds[k], a, b))
        <==> (exists k :: i + 1 <= k < |rounds| && (forall j :: i + 1 <= j <= k ==> Present(rounds[j], a, b)) && Mutual(rounds[k], a, b))
  {
    if exists k :: i <= k < |rounds| && (forall j :: i <= j <= k ==> Present(rounds[j], a, b)) && Mutual(rounds[k], a, b) {
      var k :| i <= k < |rounds| && (forall j :: i <= j <= k ==> Present(rounds[j], a, b)) && Mutual(rounds[k], a, b);
      assert k != i;
      assert forall j :: i + 1 <= j <= k ==> Present(rounds[j], a, b);
    }
    if exists k :: i + 1 <= k < |rounds| && (forall j :: i + 1 <= j <= k ==> Present(rounds[j], a, b)) && Mutual(rounds[k], a, b) {
      var k :| i + 1 <= k < |rounds| && (forall j :: i + 1 <= j <= k ==> Present(rounds[j], a, b)) && Mutual(rounds[k], a, b);
      assert forall j :: i <= j <= k ==> Present(rounds[j], a, b);
    }
  }

  /** `pion_friends[node]` (line 88): the departed, in the given order, who are good friends of the node. */
  function PionFriends(rounds: seq<SurveyRound>, node: NodeId, departed: seq<NodeId>): (r: Result<seq<NodeId>>)
    ensures r.Ok? ==> forall p :: p in r.value <==> p in departed && GoodFriendsFrom(rounds, node, p, 0) == Ok(true)
    ensures r.Ok? ==> |r.value| <= |departed|
    ensures r.Ok? <==> forall j :: 0 <= j < |departed| ==> GoodFriendsFrom(rounds, node, departed[j], 0).Ok?
    ensures r.Err? ==> r.error == KeyError
  {
    if departed == [] then Ok([])
    else
      var p := departed[0];
      assert forall j :: 0 < j < |departed| ==> departed[j] == departed[1..][j - 1];
      match GoodFriendsFrom(rounds, node, p, 0)
      case Err(e) => Err(e)
      case Ok(friends) =>
        match PionFriends(rounds, node, departed[1..])
        case Err(e) => Err(e)
        case Ok(rest) => Ok(if friends then [p] + rest else rest)
  }

  // ---------------------------------------------------------------------
  // The per-node table

  /** The relational columns of `calculate_node_features` for one node. */
  datatype NodeFeatures = NodeFeatures(
    node: NodeId,
    inDegree: nat,
    prevInDegree: nat,
    bidirectional: set<NodeId>,
    fromOnly: set<NodeId>,
    toOnly: set<NodeId>,
    formed: set<NodeId>,
    deformed: set<NodeId>)

  /** One node's row for round `idx` of `graphs`; round 0 has no previous round (line 86). */
  function Features(graphs: seq<DiGraph>, idx: nat, departed: set<NodeId>, node: NodeId): (f: NodeFeatures)
    requires idx < |graphs|
    ensures f.node == node && f.inDegree == graphs[idx].InDegree(node)
    ensures idx == 0 ==> f.prevInDegree == 0 && f.formed == {} && f.deformed == {}
    ensures idx > 0 ==> f.formed !! f.deformed
  {
    var g := graphs[idx];
    var common := NodeFeatures(node, g.InDegree(node), 0, Bidirectional(g, node),
                               UnidirectionalFrom(g, node), UnidirectionalTo(g, node), {}, {});
    if idx == 0 then common
    else
      var prev := graphs[idx - 1];
      FormedDeformedDisjoint(g, prev, departed, node);
      common.(prevInDegree := prev.InDegree(node), formed := Formed(g, prev, node),
              deformed := Deformed(g, prev, departed, node))
  }

  /** The table, one row per node of the round in the graph's node order. */
  function NodeTable(graphs: seq<DiGraph>, idx: nat, departed: set<NodeId>, nodes: seq<NodeId>): (t: seq<NodeFeatures>)
    requires idx < |graphs|
    ensures |t| == |nodes|
    ensures forall k :: 0 <= k < |nodes| ==> t[k] == Features(graphs, idx, departed, nodes[k])
  {
    seq(|nodes|, k requires 0 <= k < |nodes| => Features(graphs, idx, departed, nodes[k]))
  }
}
