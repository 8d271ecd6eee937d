/**
 * `CliqueSlides.assign_remaining_nodes_to_cliques`: attach the nodes left over by
 * the clique partition to the seed groups, over a fixed number of rounds.
 */
module NodeAssignment {
  import opened Outcomes
  import opened DiGraphs
  import opened Sorting

  // ---------------------------------------------------------------------
  // Scoring one clique

  /** `edges_to_clique`: members m with (node, m) or (m, node) an edge, counted per list entry. */
  function ToCount(g: DiGraph, node: NodeId, clique: seq<NodeId>): (r: nat)
    ensures r <= |clique|
  {
    if clique == [] then 0
    else (if g.HasEdge(node, clique[0]) || g.HasEdge(clique[0], node) then 1 else 0) + ToCount(g, node, clique[1..])
  }

  /** `edges_from_clique`: members m with (m, node) or (node, m) an edge. */
  function FromCount(g: DiGraph, node: NodeId, clique: seq<NodeId>): (r: nat)
    ensures r <= |clique|
  {
    if clique == [] then 0
    else (if g.HasEdge(clique[0], node) || g.HasEdge(node, clique[0]) then 1 else 0) + FromCount(g, node, clique[1..])
  }

  /** The members of the clique the node is adjacent to, in either direction. */
  function Links(g: DiGraph, node: NodeId, clique: seq<NodeId>): (r: nat)
    ensures r <= |clique|
  {
    if clique == [] then 0
    else (if g.Adjacent(node, clique[0]) then 1 else 0) + Links(g, node, clique[1..])
  }

  /** The two counts are the same "either direction" count. */
  lemma {:induction false} CountsAgree(g: DiGraph, node: NodeId, clique: seq<NodeId>)
    ensures ToCount(g, node, clique) == Links(g, node, clique)
    ensures FromCount(g, node, clique) == Links(g, node, clique)
  {
    if clique != [] {
      CountsAgree(g, node, clique[1..]);
    }
  }

  /** `total_edges = (edges_to_clique + edges_from_clique) * average_clique_size / len(clique)`. */
  function Score(g: DiGraph, node: NodeId, clique: seq<NodeId>, avg: real): real
    requires |clique| > 0
  {
    (ToCount(g, node, clique) + FromCount(g, node, clique)) as real * avg / (|clique| as real)
  }

  /** So the score is twice the links, scaled by the average size over the clique size. */
  lemma ScoreIsDoubleLinks(g: DiGraph, node: NodeId, clique: seq<NodeId>, avg: real)
    requires |clique| > 0
    ensures Score(g, node, clique, avg) == (2 * Links(g, node, clique)) as real * avg / (|clique| as real)
  {
    CountsAgree(g, node, clique);
  }

  // ---------------------------------------------------------------------
  // The closest clique of one node

  /** `non_overlapping_cliques[i] + second_order_nodes[i]`, the clique as it currently stands. */
  function Current(cliques: seq<seq<NodeId>>, second: seq<seq<NodeId>>, i: int): seq<NodeId>
    requires |second| == |cliques| && 0 <= i < |cliques|
  {
    cliques[i] + second[i]
  }

  /** A clique is scored unless it has grown beyond `max_clique_size`. */
  predicate Eligible(cliques: seq<seq<NodeId>>, second: seq<seq<NodeId>>, i: int, maxSize: int)
    requires |second| == |cliques| && 0 <= i < |cliques|
  {
    |Current(cliques, second, i)| <= maxSize
  }

  /** No scored clique among the first n is empty, so none divides by zero. */
  predicate ScoresDefined(cliques: seq<seq<NodeId>>, second: seq<seq<NodeId>>, maxSize: int, n: int)
    requires |second| == |cliques| && n <= |cliques|
  {
    forall j :: 0 <= j < n && Eligible(cliques, second, j, maxSize) ==> |Current(cliques, second, j)| > 0
  }

  /**
   * (idx, m) is the outcome of scanning the first n cliques: idx is the first
   * scored clique with the strictly greatest positive score m, or -1 with m = 0
   * when no score is positive.
   */
  predicate Best(g: DiGraph, node: NodeId, cliques: seq<seq<NodeId>>, second: seq<seq<NodeId>>,
                 avg: real, maxSize: int, n: int, idx: int, m: real)
    requires |second| == |cliques| && 0 <= n <= |cliques| && ScoresDefined(cliques, second, maxSize, n)
  {
    if idx == -1 then
      m == 0.0 &&
      forall j :: 0 <= j < n && Eligible(cliques, second, j, maxSize) ==>
        Score(g, node, Current(cliques, second, j), avg) <= 0.0
    else
      && 0 <= idx < n && Eligible(cliques, second, idx, maxSize)
      && m == Score(g, node, Current(cliques, second, idx), avg) && m > 0.0
      && (forall j :: 0 <= j < n && Eligible(cliques, second, j, maxSize) ==>
            Score(g, node, Current(cliques, second, j), avg) <= m)
      && (forall j :: 0 <= j < idx && Eligible(cliques, second, j, maxSize) ==>
            Score(g, node, Current(cliques, second, j), avg) < m)
  }

  /**
   * The scan over the first n cliques (lines 108-126), as a function:
   * `(closest_clique_index, max_edges)`, a later clique replacing the best so far
   * only with a strictly greater score, or `ZeroDivisionError` at an empty scored clique.
   */
  function Closest(g: DiGraph, node: NodeId, cliques: seq<seq<NodeId>>, second: seq<seq<NodeId>>,
                   avg: real, maxSize: int, n: nat): (r: Result<(int, real)>)
    requires |second| == |cliques| && n <= |cliques|
    ensures r.Err? ==> r.error == ZeroDivisionError
    ensures r.Ok? ==> -1 <= r.value.0 < n
  {
    if n == 0 then Ok((-1, 0.0))
    else
      var prev :- Closest(g, node, cliques, second, avg, maxSize, n - 1);
      if !Eligible(cliques, second, n - 1, maxSize) then Ok(prev)
      else if |Current(cliques, second, n - 1)| == 0 then Err(ZeroDivisionError)
      else
        var total := Score(g, node, Current(cliques, second, n - 1), avg);
        if total > prev.1 then Ok((n - 1, total)) else Ok(prev)
  }

  /** The scan succeeds exactly when no scored clique is empty, and then finds the first best clique. */
  lemma {:induction false} ClosestBest(g: DiGraph, node: NodeId, cliques: seq<seq<NodeId>>, second: seq<seq<NodeId>>,
                                       avg: real, maxSize: int, n: nat)
    requires |second| == |cliques| && n <= |cliques|
    ensures Closest(g, node, cliques, second, avg, maxSize, n).Ok? <==> ScoresDefined(cliques, second, maxSize, n)
    ensures var r := Closest(g, node, cliques, second, avg, maxSize, n);
      r.Ok? ==> Best(g, node, cliques, second, avg, maxSize, n, r.value.0, r.value.1)
  {
    if n > 0 {
      ClosestBest(g, node, cliques, second, avg, maxSize, n - 1);
      var i := n - 1;
      if ScoresDefined(cliques, second, maxSize, n) {
        assert ScoresDefined(cliques, second, maxSize, i);
      } else if ScoresDefined(cliques, second, maxSize, i) {
        assert Eligible(cliques, second, i, maxSize) && |Current(cliques, second, i)| == 0;
      }
    }
  }

  /** A failed scan of a prefix is the failure of the whole scan. */
  lemma {:induction false} ClosestErr(g: DiGraph, node: NodeId, cliques: seq<seq<NodeId>>, second: seq<seq<NodeId>>,
                                      avg: real, maxSize: int, k: nat, n: nat)
    requires |second| == |cliques| && k <= n <= |cliques|
    requires Closest(g, node, cliques, second, avg, maxSize, k).Err?
    ensures Closest(g, node, cliques, second, avg, maxSize, n) == Closest(g, node, cliques, second, avg, maxSize, k)
    decreases n - k
  {
    if k < n {
      ClosestErr(g, node, cliques, second, avg, maxSize, k, n - 1);
    }
  }

  /** The inner loop over the cliques (lines 108-126): `(closest_clique_index, max_edges)`. */
  method ClosestClique(g: DiGraph, node: NodeId, cliques: seq<seq<NodeId>>, second: seq<seq<NodeId>>,
                       avg: real, maxSize: int)
    returns (r: Result<(int, real)>)
    requires |second| == |cliques|
    ensures r == Closest(g, node, cliques, second, avg, maxSize, |cliques|)
    ensures r.Err? ==> r.error == ZeroDivisionError
    ensures r.Ok? <==> ScoresDefined(cliques, second, maxSize, |cliques|)
    ensures r.Ok? ==> Best(g, node, cliques, second, avg, maxSize, |cliques|, r.value.0, r.value.1)
  {
    ClosestBest(g, node, cliques, second, avg, maxSize, |cliques|);
    var maxEdges: real := 0.0;
    var closest := -1;
    var i := 0;
    while i < |cliques|
      invariant 0 <= i <= |cliques|
      invariant Closest(g, node, cliques, second, avg, maxSize, i) == Ok((closest, maxEdges))
    {
      var clique := cliques[i] + second[i];
      if |clique| > maxSize {
        i := i + 1;
        continue;
      }
      if |clique| == 0 {
        ClosestErr(g, node, cliques, second, avg, maxSize, i + 1, |cliques|);
        return Err(ZeroDivisionError);
      }
      var total := Score(g, node, clique, avg);
      if total > maxEdges {
        maxEdges := total;
        closest := i;
      }
      i := i + 1;
    }
    r := Ok((closest, maxEdges));
  }

  // ---------------------------------------------------------------------
  // The second-order lists

  /** Every node on some second-order list. */
  function Assigned(second: seq<seq<NodeId>>): (r: set<NodeId>)
    ensures forall x :: x in r <==> exists k :: 0 <= k < |second| && x in second[k]
  {
    if second == [] then {}
    else
      var init := second[..|second| - 1];
      var rest := Assigned(init);
      assert forall k :: 0 <= k < |init| ==> init[k] == second[k];
      rest + Members(second[|second| - 1])
  }

  /** No node is on two lists, or twice on one. */
  ghost predicate NoRepeat(second: seq<seq<NodeId>>) {
    && (forall k :: 0 <= k < |second| ==> Distinct(second[k]))
    && (forall k, l :: 0 <= k < |second| && 0 <= l < |second| && k != l ==> Members(second[k]) !! Members(second[l]))
  }

  /** `second_order_nodes[idx].append(node)` adds the node and keeps every list's earlier entries. */
  lemma AppendAssigned(second: seq<seq<NodeId>>, idx: int, x: NodeId)
    requires 0 <= idx < |second|
    ensures Assigned(second[idx := second[idx] + [x]]) == Assigned(second) + {x}
    ensures forall k :: 0 <= k < |second| ==> second[k] <= second[idx := second[idx] + [x]][k]
  {
    var s := second[idx := second[idx] + [x]];
    forall y | y in Assigned(s) ensures y in Assigned(second) + {x} {
      var k :| 0 <= k < |s| && y in s[k];
      if k != idx {
        assert s[k] == second[k];
      } else if y != x {
        assert y in second[idx];
      }
    }
    forall y | y in Assigned(second) + {x} ensures y in Assigned(s) {
      if y == x {
        assert x in s[idx];
      } else {
        var k :| 0 <= k < |second| && y in second[k];
        assert second[k] <= s[k];
      }
    }
  }

  /** Appending a node that is on no list yet keeps the lists free of repeats. */
  lemma AppendNew(second: seq<seq<NodeId>>, idx: int, x: NodeId)
    requires 0 <= idx < |second| && NoRepeat(second) && x !in Assigned(second)
    ensures NoRepeat(second[idx := second[idx] + [x]])
  {
    var s := second[idx := second[idx] + [x]];
    assert x !in second[idx];
    forall i, j | 0 <= i < j < |s[idx]| ensures s[idx][i] != s[idx][j] {
      if j == |second[idx]| {
        assert s[idx][i] == second[idx][i];
      } else {
        assert s[idx][i] == second[idx][i] && s[idx][j] == second[idx][j];
      }
    }
    forall k, l | 0 <= k < |s| && 0 <= l < |s| && k != l ensures Members(s[k]) !! Members(s[l]) {
      assert x !in second[k] && x !in second[l];
      assert forall y :: y in s[k] ==> y in second[k] || y == x;
      assert forall y :: y in s[l] ==> y in second[l] || y == x;
    }
  }

  /** `sum(len(non_overlapping_cliques[k] + second_order_nodes[k]) for k in ...)`. */
  function TotalSize(cliques: seq<seq<NodeId>>, second: seq<seq<NodeId>>): nat
    requires |second| == |cliques|
  {
    if cliques == [] then 0
    else |cliques[0] + second[0]| + TotalSize(cliques[1..], second[1..])
  }

  /** The number of edges at the node: `len(in_edges(node)) + len(out_edges(node))`. */
  function Degree(g: DiGraph, node: NodeId): nat {
    g.InDegree(node) + g.OutDegree(node)
  }

  // ---------------------------------------------------------------------
  // One round and all rounds

  /**
   * The decision for one node (lines 108-131): `Some(i)` when the node goes on
   * clique i's list, the closest clique, whose score must also beat
   * `assign_thresh` times the node's degree; `None` otherwise.
   */
  function Place(g: DiGraph, node: NodeId, cliques: seq<seq<NodeId>>, second: seq<seq<NodeId>>,
                 avg: real, maxSize: int, thresh: real): (r: Result<Option<int>>)
    requires |second| == |cliques|
    ensures r.Err? ==> r.error == ZeroDivisionError
    ensures r.Ok? && r.value.Some? ==> 0 <= r.value.value < |cliques|
  {
    var best :- Closest(g, node, cliques, second, avg, maxSize, |cliques|);
    if best.0 != -1 && best.1 > thresh * (Degree(g, node) as real) then Ok(Some(best.0)) else Ok(None)
  }

  /**
   * The placement rule: a zero division exactly when a scored clique is empty;
   * otherwise the node goes to the first clique with the strictly best positive
   * score when that score beats the threshold times its degree, and to none
   * when no scored clique's score is above both 0 and that bound.
   */
  lemma PlaceRule(g: DiGraph, node: NodeId, cliques: seq<seq<NodeId>>, second: seq<seq<NodeId>>,
                  avg: real, maxSize: int, thresh: real)
    requires |second| == |cliques|
    ensures var r := Place(g, node, cliques, second, avg, maxSize, thresh);
      && (r.Err? ==> r.error == ZeroDivisionError)
      && (r.Ok? <==> ScoresDefined(cliques, second, maxSize, |cliques|))
      && (r.Ok? && r.value.Some? ==>
            var i := r.value.value;
            && 0 <= i < |cliques| && Eligible(cliques, second, i, maxSize)
            && Best(g, node, cliques, second, avg, maxSize, |cliques|, i, Score(g, node, Current(cliques, second, i), avg))
            && Score(g, node, Current(cliques, second, i), avg) > thresh * (Degree(g, node) as real))
      && (r.Ok? && r.value.None? ==>
            forall j :: 0 <= j < |cliques| && Eligible(cliques, second, j, maxSize) ==>
              Score(g, node, Current(cliques, second, j), avg) <= 0.0 ||
              Score(g, node, Current(cliques, second, j), avg) <= thresh * (Degree(g, node) as real))
  {
    ClosestBest(g, node, cliques, second, avg, maxSize, |cliques|);
  }

  /** A node with no edge has score 0 everywhere, so it is never placed. */
  lemma IsolatedNeverPlaced(g: DiGraph, node: NodeId, cliques: seq<seq<NodeId>>, second: seq<seq<NodeId>>,
                            avg: real, maxSize: int, thresh: real)
    requires |second| == |cliques| && Degree(g, node) == 0
    ensures var r := Place(g, node, cliques, second, avg, maxSize, thresh);
      r.Ok? ==> r.value == None
  {
    PlaceRule(g, node, cliques, second, avg, maxSize, thresh);
    forall j | 0 <= j < |cliques| && Eligible(cliques, second, j, maxSize) && |Current(cliques, second, j)| > 0
      ensures Score(g, node, Current(cliques, second, j), avg) == 0.0
    {
      NoLinks(g, node, Current(cliques, second, j));
      ScoreIsDoubleLinks(g, node, Current(cliques, second, j), avg);
    }
  }

  /** Without edges at the node, it is linked to no member. */
  lemma {:induction false} NoLinks(g: DiGraph, node: NodeId, clique: seq<NodeId>)
    requires Degree(g, node) == 0
    ensures Links(g, node, clique) == 0
  {
    if clique != [] {
      NoLinks(g, node, clique[1..]);
      var m := clique[0];
      assert g.OutNeighbours(node) == {} && g.InNeighbours(node) == {};
      assert g.HasEdge(node, m) ==> m in g.OutNeighbours(node);
      assert g.HasEdge(m, node) ==> m in g.InNeighbours(node);
    }
  }

  /** `PlaceNode`: the decision for one node, computed by the loop over the cliques. */
  method PlaceNode(g: DiGraph, node: NodeId, cliques: seq<seq<NodeId>>, second: seq<seq<NodeId>>,
                   avg: real, maxSize: int, thresh: real)
    returns (r: Result<Option<int>>)
    requires |second| == |cliques|
    ensures r == Place(g, node, cliques, second, avg, maxSize, thresh)
  {
    var best := ClosestClique(g, node, cliques, second, avg, maxSize);
    if best.Err? {
      return Err(best.error);
    }
    var (closest, maxEdges) := best.value;
    if closest != -1 && maxEdges > thresh * (Degree(g, node) as real) {
      r := Ok(Some(closest));
    } else {
      r := Ok(None);
    }
  }

  /** A failed score means some clique is empty. */
  lemma EmptyClique(cliques: seq<seq<NodeId>>, second: seq<seq<NodeId>>, maxSize: int)
    requires |second| == |cliques| && !ScoresDefined(cliques, second, maxSize, |cliques|)
    ensures exists k :: 0 <= k < |cliques| && |cliques[k]| == 0
  {
    var j :| 0 <= j < |cliques| && Eligible(cliques, second, j, maxSize) && |Current(cliques, second, j)| == 0;
    assert |cliques[j]| == 0;
  }

  /** Placing a node fails only when some clique is empty. */
  lemma PlaceFails(g: DiGraph, node: NodeId, cliques: seq<seq<NodeId>>, second: seq<seq<NodeId>>,
                   avg: real, maxSize: int, thresh: real)
    requires |second| == |cliques|
    ensures Place(g, node, cliques, second, avg, maxSize, thresh).Err? ==>
      exists k :: 0 <= k < |cliques| && |cliques[k]| == 0
  {
    PlaceRule(g, node, cliques, second, avg, maxSize, thresh);
    if Place(g, node, cliques, second, avg, maxSize, thresh).Err? {
      EmptyClique(cliques, second, maxSize);
    }
  }

  /**
   * What one round does to the nodes still to visit (lines 107-136), from left
   * to right: each node is placed by `Place` against the lists as they stand,
   * and a placed node is appended to its clique's list and to `nodes_to_remove`.
   */
  function RoundFrom(g: DiGraph, cliques: seq<seq<NodeId>>, current: seq<seq<NodeId>>, removed: seq<NodeId>,
                     nodes: seq<NodeId>, avg: real, maxSize: int, thresh: real)
    : (r: Result<(seq<seq<NodeId>>, seq<NodeId>)>)
    requires |current| == |cliques|
    ensures r.Err? ==> r.error == ZeroDivisionError
    ensures r.Ok? ==> |r.value.0| == |cliques|
    decreases |nodes|, 1
  {
    if nodes == [] then Ok((current, removed))
    else PlaceThenRoundFrom(g, cliques, current, removed, nodes, avg, maxSize, thresh)
  }

  /** With a node still to visit: place `nodes[0]`, then visit the rest against the updated lists. */
  function PlaceThenRoundFrom(g: DiGraph, cliques: seq<seq<NodeId>>, current: seq<seq<NodeId>>, removed: seq<NodeId>,
                              nodes: seq<NodeId>, avg: real, maxSize: int, thresh: real)
    : (r: Result<(seq<seq<NodeId>>, seq<NodeId>)>)
    requires |current| == |cliques| && nodes != []
    ensures r.Err? ==> r.error == ZeroDivisionError
    ensures r.Ok? ==> |r.value.0| == |cliques|
    decreases |nodes|, 0
  {
      var p :- Place(g, nodes[0], cliques, current, avg, maxSize, thresh);
      if p.Some? then
        RoundFrom(g, cliques, current[p.value := current[p.value] + [nodes[0]]], removed + [nodes[0]],
                  nodes[1..], avg, maxSize, thresh)
      else
        RoundFrom(g, cliques, current, removed, nodes[1..], avg, maxSize, thresh)
  }

  /** A whole round: the new lists and `nodes_to_remove`, with the average size fixed for the round. */
  function Round(g: DiGraph, cliques: seq<seq<NodeId>>, second: seq<seq<NodeId>>, nodes: seq<NodeId>,
                 avg: real, maxSize: int, thresh: real): (r: Result<(seq<seq<NodeId>>, seq<NodeId>)>)
    requires |second| == |cliques|
    ensures r.Err? ==> r.error == ZeroDivisionError
    ensures r.Ok? ==> |r.value.0| == |cliques|
  {
    RoundFrom(g, cliques, second, [], nodes, avg, maxSize, thresh)
  }

  /** Visiting the node at position i of the round's list. */
  lemma RoundFromStep(g: DiGraph, cliques: seq<seq<NodeId>>, current: seq<seq<NodeId>>, removed: seq<NodeId>,
                      nodes: seq<NodeId>, i: nat, avg: real, maxSize: int, thresh: real)
    requires |current| == |cliques| && i < |nodes|
    ensures var p := Place(g, nodes[i], cliques, current, avg, maxSize, thresh);
      RoundFrom(g, cliques, current, removed, nodes[i..], avg, maxSize, thresh) ==
        if p.Err? then Err(p.error)
        else if p.value.Some? then
          RoundFrom(g, cliques, current[p.value.value := current[p.value.value] + [nodes[i]]], removed + [nodes[i]],
                    nodes[i + 1..], avg, maxSize, thresh)
        else RoundFrom(g, cliques, current, removed, nodes[i + 1..], avg, maxSize, thresh)
  {
    assert nodes[i..][0] == nodes[i] && nodes[i..][1..] == nodes[i + 1..];
  }

  /** What the visits so far have done: lists only grew, by exactly the removed nodes, all of them visited. */
  ghost predicate RoundSoFar(second: seq<seq<NodeId>>, nodes: seq<NodeId>, i: nat,
                             current: seq<seq<NodeId>>, removed: seq<NodeId>, clean: bool) {
    && i <= |nodes|
    && |current| == |second|
    && (forall k :: 0 <= k < |second| ==> second[k] <= current[k])
    && Assigned(current) == Assigned(second) + Members(removed)
    && Members(removed) <= Members(nodes[..i])
    && (clean ==> NoRepeat(current))
  }

  /** The visit of `nodes[i]` inside a round (lines 108-133): place it, and append it where it goes. */
  method VisitNode(g: DiGraph, cliques: seq<seq<NodeId>>, current: seq<seq<NodeId>>, removed: seq<NodeId>,
                   nodes: seq<NodeId>, i: nat, avg: real, maxSize: int, thresh: real,
                   ghost second: seq<seq<NodeId>>, ghost clean: bool)
    returns (r: Result<(seq<seq<NodeId>>, seq<NodeId>)>)
    requires |current| == |cliques| && i < |nodes|
    requires clean ==> NoRepeat(second) && Distinct(nodes) && Members(nodes) !! Assigned(second)
    requires RoundSoFar(second, nodes, i, current, removed, clean)
    ensures r.Err? ==> RoundFrom(g, cliques, current, removed, nodes[i..], avg, maxSize, thresh) == Err(r.error)
    ensures r.Err? ==> exists k :: 0 <= k < |cliques| && |cliques[k]| == 0
    ensures r.Ok? ==> |r.value.0| == |cliques| && RoundSoFar(second, nodes, i + 1, r.value.0, r.value.1, clean)
    ensures r.Ok? ==> RoundFrom(g, cliques, current, removed, nodes[i..], avg, maxSize, thresh)
                      == RoundFrom(g, cliques, r.value.0, r.value.1, nodes[i + 1..], avg, maxSize, thresh)
  {
    var node := nodes[i];
    var place := PlaceNode(g, node, cliques, current, avg, maxSize, thresh);
    PlaceFails(g, node, cliques, current, avg, maxSize, thresh);
    RoundFromStep(g, cliques, current, removed, nodes, i, avg, maxSize, thresh);
    if place.Err? {
      return Err(place.error);
    }
    assert nodes[..i + 1] == nodes[..i] + [node];
    MembersAppend(nodes[..i], node);
    if place.value.Some? {
      var closest := place.value.value;
      if clean {
        assert node !in Members(removed) by {
          assert forall j :: 0 <= j < i ==> nodes[j] != node;
        }
        AppendNew(current, closest, node);
      }
      AppendAssigned(current, closest, node);
      MembersAppend(removed, node);
      r := Ok((current[closest := current[closest] + [node]], removed + [node]));
    } else {
      r := Ok((current, removed));
    }
  }

  /**
   * One round (lines 107-136): the nodes in the given order, each placed on the
   * closest clique's list when its score beats `assign_thresh` times its degree.
   * The average size stays fixed for the round while the lists grow.
   */
  method AssignRound(g: DiGraph, cliques: seq<seq<NodeId>>, second: seq<seq<NodeId>>, nodes: seq<NodeId>,
                     avg: real, maxSize: int, thresh: real)
    returns (r: Result<(seq<seq<NodeId>>, seq<NodeId>)>)
    requires |second| == |cliques|
    ensures r == Round(g, cliques, second, nodes, avg, maxSize, thresh)
    ensures r.Err? ==> r.error == ZeroDivisionError
    ensures (forall k :: 0 <= k < |cliques| ==> |cliques[k]| > 0) ==> r.Ok?
    ensures r.Ok? ==>
      && |r.value.0| == |second|
      && (forall k :: 0 <= k < |second| ==> second[k] <= r.value.0[k])
      && Assigned(r.value.0) == Assigned(second) + Members(r.value.1)
      && Members(r.value.1) <= Members(nodes)
    ensures r.Ok? && NoRepeat(second) && Distinct(nodes) && Members(nodes) !! Assigned(second) ==>
      NoRepeat(r.value.0)
  {
    ghost var clean := NoRepeat(second) && Distinct(nodes) && Members(nodes) !! Assigned(second);
    ghost var goal := Round(g, cliques, second, nodes, avg, maxSize, thresh);
    var current := second;
    var removed: seq<NodeId> := [];
    var i := 0;
    assert nodes[..0] == [];
    while i < |nodes|
      invariant i <= |nodes| && |current| == |cliques|
      invariant RoundSoFar(second, nodes, i, current, removed, clean)
      invariant RoundFrom(g, cliques, current, removed, nodes[i..], avg, maxSize, thresh) == goal
    {
      var step := VisitNode(g, cliques, current, removed, nodes, i, avg, maxSize, thresh, second, clean);
      if step.Err? {
        return Err(step.error);
      }
      current, removed := step.value.0, step.value.1;
      i := i + 1;
    }
    assert nodes[..i] == nodes && nodes[i..] == [];
    r := Ok((current, removed));
  }

  /** The members of a list not in `gone`, in their order: `list(set(remaining_nodes) - set(nodes_to_remove))`. */
  function Without(s: seq<NodeId>, gone: set<NodeId>): (r: seq<NodeId>)
    ensures forall j :: 0 <= j < |r| ==> r[j] in s && r[j] !in gone
    ensures forall j :: 0 <= j < |s| && s[j] !in gone ==> s[j] in r
    ensures Distinct(s) ==> Distinct(r)
    ensures Members(r) == Members(s) - gone
  {
    if s == [] then []
    else
      var rest := Without(s[1..], gone);
      assert forall j :: 0 <= j < |rest| ==> rest[j] in s[1..];
      if s[0] in gone then rest
      else
        assert Distinct(s) ==> s[0] !in rest by {
          if Distinct(s) {
            assert forall j :: 0 < j < |s| ==> s[j] != s[0];
            assert forall j :: 0 <= j < |s[1..]| ==> s[1..][j] == s[j + 1];
          }
        }
        assert Distinct(s) ==> Distinct(s[1..]) by {
          assert forall j :: 0 <= j < |s[1..]| ==> s[1..][j] == s[j + 1];
        }
        [s[0]] + rest
  }

  lemma MembersAppend(s: seq<NodeId>, x: NodeId)
    ensures Members(s + [x]) == Members(s) + {x}
  {
    forall y | y in Members(s + [x]) ensures y in Members(s) + {x} {
      var j :| 0 <= j < |s + [x]| && (s + [x])[j] == y;
      if j < |s| {
        assert s[j] == y;
      }
    }
    forall y | y in Members(s) + {x} ensures y in Members(s + [x]) {
      if y != x {
        var j :| 0 <= j < |s| && s[j] == y;
        assert (s + [x])[j] == y;
      } else {
        assert (s + [x])[|s|] == x;
      }
    }
  }

  /** `sorted(remaining_nodes)`: ascending, the same members, still duplicate-free. */
  lemma SortedNodes(s: seq<NodeId>)
    requires Distinct(s)
    ensures Members(Sort(s, IntLe())) == Members(s)
    ensures Distinct(Sort(s, IntLe()))
    ensures forall i, j :: 0 <= i < j < |s| ==> Sort(s, IntLe())[i] < Sort(s, IntLe())[j]
  {
    var r := Sort(s, IntLe());
    SortPermutes(s, IntLe());
    DistinctPermutation(s, r);
    forall y | y in Members(s) ensures y in Members(r) {
      assert y in multiset(s);
    }
    forall y | y in Members(r) ensures y in Members(s) {
      assert y in multiset(r);
    }
    assert SortedBy(r, IntLe());
  }

  lemma Leftover(all: set<NodeId>, before: set<NodeId>, added: set<NodeId>, left: set<NodeId>)
    requires left == (all - before) - added
    ensures left == all - (before + added)
  {
    forall y | y in left ensures y in all - (before + added) { }
    forall y | y in all - (before + added) ensures y in left { }
  }

  /** What `assign_remaining_nodes_to_cliques` computes: the lists, and the nodes it leaves unassigned. */
  datatype Assignment = Assignment(second: seq<seq<NodeId>>, unassigned: seq<NodeId>)

  /**
   * One round on the state at its start: the average size of the lists as they
   * stand, the still-unassigned nodes in ascending order, and the nodes it
   * placed dropped from the remainder.
   */
  function Step(g: DiGraph, cliques: seq<seq<NodeId>>, second: seq<seq<NodeId>>, left: seq<NodeId>,
                maxSize: int, thresh: real): (r: Result<(seq<seq<NodeId>>, seq<NodeId>)>)
    requires |second| == |cliques| && |cliques| > 0
    ensures r.Err? ==> r.error == ZeroDivisionError
    ensures r.Ok? ==> |r.value.0| == |cliques|
  {
    var avg := (TotalSize(cliques, second) as real) / (|cliques| as real);
    var nodes := Sort(left, IntLe());
    var round :- Round(g, cliques, second, nodes, avg, maxSize, thresh);
    Ok((round.0, Without(nodes, Members(round.1))))
  }

  /** What `t` more rounds do. With no cliques the average divides by zero. */
  function Rounds(g: DiGraph, cliques: seq<seq<NodeId>>, second: seq<seq<NodeId>>, left: seq<NodeId>,
                  t: int, maxSize: int, thresh: real): (r: Result<Assignment>)
    requires |second| == |cliques|
    ensures r.Err? ==> r.error == ZeroDivisionError
    decreases t, 1
  {
    if t <= 0 then Ok(Assignment(second, left))
    else if |cliques| == 0 then Err(ZeroDivisionError)
    else StepThenRounds(g, cliques, second, left, t, maxSize, thresh)
  }

  /** With a round still to run and cliques to average over: one `Step`, then the other `t - 1` rounds. */
  function StepThenRounds(g: DiGraph, cliques: seq<seq<NodeId>>, second: seq<seq<NodeId>>, left: seq<NodeId>,
                          t: int, maxSize: int, thresh: real): (r: Result<Assignment>)
    requires |second| == |cliques| && t > 0 && |cliques| > 0
    ensures r.Err? ==> r.error == ZeroDivisionError
    decreases t, 0
  {
    var next :- Step(g, cliques, second, left, maxSize, thresh);
    Rounds(g, cliques, next.0, next.1, t - 1, maxSize, thresh)
  }

  /** One more round is one `Step`, then the rest. */
  lemma RoundsStep(g: DiGraph, cliques: seq<seq<NodeId>>, second: seq<seq<NodeId>>, left: seq<NodeId>,
                   t: int, maxSize: int, thresh: real)
    requires |second| == |cliques| && t > 0 && |cliques| > 0
    ensures var next := Step(g, cliques, second, left, maxSize, thresh);
      Rounds(g, cliques, second, left, t, maxSize, thresh) ==
        if next.Err? then Err(next.error) else Rounds(g, cliques, next.value.0, next.value.1, t - 1, maxSize, thresh)
  {
  }

  /** With no rounds to run, nothing changes. */
  lemma RoundsNone(g: DiGraph, cliques: seq<seq<NodeId>>, second: seq<seq<NodeId>>, left: seq<NodeId>,
                   t: int, maxSize: int, thresh: real)
    requires |second| == |cliques| && t <= 0
    ensures Rounds(g, cliques, second, left, t, maxSize, thresh) == Ok(Assignment(second, left))
  {
  }

  /** What each round keeps: every list entry came once from the leftover set, and the rest is still left. */
  ghost predicate Conserved(remaining: seq<NodeId>, second: seq<seq<NodeId>>, left: seq<NodeId>) {
    && NoRepeat(second)
    && Assigned(second) <= Members(remaining)
    && Members(left) == Members(remaining) - Assigned(second)
    && Distinct(left)
  }

  /** The body of the loop over the rounds (lines 100-138). */
  method OneRound(g: DiGraph, cliques: seq<seq<NodeId>>, second: seq<seq<NodeId>>, left: seq<NodeId>,
                  maxSize: int, thresh: real, ghost remaining: seq<NodeId>)
    returns (r: Result<(seq<seq<NodeId>>, seq<NodeId>)>)
    requires |second| == |cliques| && |cliques| > 0
    requires Conserved(remaining, second, left)
    ensures r == Step(g, cliques, second, left, maxSize, thresh)
    ensures (forall k :: 0 <= k < |cliques| ==> |cliques[k]| > 0) ==> r.Ok?
    ensures r.Ok? ==> Conserved(remaining, r.value.0, r.value.1)
  {
    var avg := (TotalSize(cliques, second) as real) / (|cliques| as real);
    var nodes := Sort(left, IntLe());
    SortedNodes(left);
    var round := AssignRound(g, cliques, second, nodes, avg, maxSize, thresh);
    if round.Err? {
      return Err(round.error);
    }
    var left' := Without(nodes, Members(round.value.1));
    Leftover(Members(remaining), Assigned(second), Members(round.value.1), Members(left'));
    r := Ok((round.value.0, left'));
  }

  /** `[[] for _ in range(len(non_overlapping_cliques))]`. */
  function NoAdditions(n: nat): (r: seq<seq<NodeId>>)
    ensures |r| == n && forall k :: 0 <= k < n ==> r[k] == []
  {
    seq(n, _ => [])
  }

  /**
   * `assign_remaining_nodes_to_cliques`: `iterations` rounds, each with its own
   * average size and the still-unassigned nodes in ascending order. The leftover
   * set is given as a duplicate-free list of its members. An empty clique list
   * divides by zero once a round starts.
   */
  method AssignRemainingNodes(g: DiGraph, cliques: seq<seq<NodeId>>, remaining: seq<NodeId>,
                              iterations: int, maxSize: int, thresh: real)
    returns (r: Result<Assignment>)
    requires Distinct(remaining)
    ensures r == Rounds(g, cliques, NoAdditions(|cliques|), remaining, iterations, maxSize, thresh)
    ensures r.Err? ==> r.error == ZeroDivisionError
    ensures iterations <= 0 ==> r == Ok(Assignment(NoAdditions(|cliques|), remaining))
    ensures iterations > 0 && |cliques| == 0 ==> r.Err?
    ensures (forall k :: 0 <= k < |cliques| ==> |cliques[k]| > 0) && (|cliques| > 0 || iterations <= 0) ==> r.Ok?
    ensures r.Ok? ==>
      && |r.value.second| == |cliques|
      && NoRepeat(r.value.second)
      && Assigned(r.value.second) <= Members(remaining)
      && Members(r.value.unassigned) == Members(remaining) - Assigned(r.value.second)
      && Distinct(r.value.unassigned)
  {
    var second: seq<seq<NodeId>> := NoAdditions(|cliques|);
    assert Assigned(second) == {};
    r := RunRounds(g, cliques, second, remaining, iterations, maxSize, thresh, remaining);
    if iterations <= 0 {
      RoundsNone(g, cliques, second, remaining, iterations, maxSize, thresh);
    }
  }

  /** One pass of the loop over the rounds: the rounds still to run, seen from the round just run. */
  method NextRound(g: DiGraph, cliques: seq<seq<NodeId>>, second: seq<seq<NodeId>>, left: seq<NodeId>,
                   t: int, maxSize: int, thresh: real, ghost remaining: seq<NodeId>)
    returns (r: Result<(seq<seq<NodeId>>, seq<NodeId>)>)
    requires t > 0 && |second| == |cliques|
    requires Conserved(remaining, second, left)
    ensures r.Err? ==> Rounds(g, cliques, second, left, t, maxSize, thresh) == Err(r.error)
    ensures r.Ok? ==> |r.value.0| == |cliques| && Conserved(remaining, r.value.0, r.value.1)
    ensures r.Ok? ==> Rounds(g, cliques, second, left, t, maxSize, thresh)
                      == Rounds(g, cliques, r.value.0, r.value.1, t - 1, maxSize, thresh)
    ensures (forall k :: 0 <= k < |cliques| ==> |cliques[k]| > 0) && |cliques| > 0 ==> r.Ok?
  {
    if |cliques| == 0 {
      return Err(ZeroDivisionError);
    }
    r := OneRound(g, cliques, second, left, maxSize, thresh, remaining);
    RoundsStep(g, cliques, second, left, t, maxSize, thresh);
  }

  /** `for _ in range(self.num_iterations)` (lines 100-138), from the given lists and leftover nodes. */
  method RunRounds(g: DiGraph, cliques: seq<seq<NodeId>>, second0: seq<seq<NodeId>>, left0: seq<NodeId>,
                   iterations: int, maxSize: int, thresh: real, ghost remaining: seq<NodeId>)
    returns (r: Result<Assignment>)
    requires |second0| == |cliques| && Conserved(remaining, second0, left0)
    ensures r == Rounds(g, cliques, second0, left0, iterations, maxSize, thresh)
    ensures (forall k :: 0 <= k < |cliques| ==> |cliques[k]| > 0) && (|cliques| > 0 || iterations <= 0) ==> r.Ok?
    ensures r.Ok? ==> |r.value.second| == |cliques| && Conserved(remaining, r.value.second, r.value.unassigned)
  {
    var second, left := second0, left0;
    var rest := iterations;
    ghost var goal := Rounds(g, cliques, second0, left0, iterations, maxSize, thresh);
    while rest > 0
      invariant |second| == |cliques|
      invariant Conserved(remaining, second, left)
      invariant rest <= iterations
      invariant Rounds(g, cliques, second, left, rest, maxSize, thresh) == goal
    {
      var next := NextRound(g, cliques, second, left, rest, maxSize, thresh, remaining);
      if next.Err? {
        return Err(next.error);
      }
      second, left := next.value.0, next.value.1;
      rest := rest - 1;
    }
    RoundsNone(g, cliques, second, left, rest, maxSize, thresh);
    r := Ok(Assignment(second, left));
  }
}
