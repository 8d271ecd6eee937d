/**
 * Building a round's choice graph from the survey rows (`create_graph`).
 */
module GraphConstruction {
  import opened Outcomes
  import opened DiGraphs

  /** The number of choice columns in the survey (`CHOICES`, "choice 1" .. "choice 6"). */
  const NumChoices: nat := 6

  /** One cell of a choice column: a choice number, or an empty (NaN) answer. */
  datatype Choice = Missing | Chosen(num: int)

  /** One survey row: the respondent's identifier and their choice cells. */
  datatype Respondent = Respondent(identifier: NodeId, choices: seq<Choice>)

  /** The row's choice list with the NaN cells dropped. */
  function Present(choices: seq<Choice>): (r: seq<int>)
    ensures |r| <= |choices|
    ensures forall x :: x in r <==> Chosen(x) in choices
  {
    if choices == [] then []
    else
      var rest := Present(choices[1..]);
      assert choices == [choices[0]] + choices[1..];
      (if choices[0].Chosen? then [choices[0].num] else []) + rest
  }

  /** `[num_to_identifier[x] for x in chosen]`: a KeyError at the first unknown number. */
  function MapChoices(chosen: seq<int>, numToId: map<int, NodeId>): (r: Result<seq<NodeId>>)
    ensures r.Ok? <==> forall j :: 0 <= j < |chosen| ==> chosen[j] in numToId
    ensures r.Ok? ==> |r.value| == |chosen|
    ensures r.Ok? ==> forall j :: 0 <= j < |chosen| ==> r.value[j] == numToId[chosen[j]]
    ensures r.Err? ==> r.error == KeyError
  {
    if chosen == [] then Ok([])
    else if chosen[0] !in numToId then
      Err(KeyError)
    else
      var rest := MapChoices(chosen[1..], numToId);
      if rest.Err? then
        assert forall j :: 0 <= j < |chosen| - 1 ==> chosen[1..][j] == chosen[j + 1];
        rest
      else Ok([numToId[chosen[0]]] + rest.value)
  }

  /** Every choice number in the rows has an identifier. */
  predicate Resolvable(rows: seq<Respondent>, numToId: map<int, NodeId>) {
    forall i, c :: 0 <= i < |rows| && c in rows[i].choices && c.Chosen? ==> c.num in numToId
  }

  /** The edges from u to each node of vs. */
  function Fan(u: NodeId, vs: seq<NodeId>): (r: set<(NodeId, NodeId)>)
    ensures forall a, b :: (a, b) in r <==> a == u && b in vs
  {
    if vs == [] then {}
    else
      assert forall b :: b in vs <==> b in vs[..|vs| - 1] || b == vs[|vs| - 1] by {
        assert vs == vs[..|vs| - 1] + [vs[|vs| - 1]];
      }
      Fan(u, vs[..|vs| - 1]) + {(u, vs[|vs| - 1])}
  }

  /** The identifiers a row chose, its NaN cells dropped. */
  function RowTargets(row: Respondent, numToId: map<int, NodeId>): (r: seq<NodeId>)
    requires forall c :: c in row.choices && c.Chosen? ==> c.num in numToId
    ensures forall v :: v in r <==> exists x :: Chosen(x) in row.choices && x in numToId && numToId[x] == v
  {
    var chosen := Present(row.choices);
    assert forall j :: 0 <= j < |chosen| ==> Chosen(chosen[j]) in row.choices;
    var vs := MapChoices(chosen, numToId).value;
    assert forall v :: v in vs ==> exists x :: Chosen(x) in row.choices && x in numToId && numToId[x] == v by {
      forall v | v in vs ensures exists x :: Chosen(x) in row.choices && x in numToId && numToId[x] == v {
        var j :| 0 <= j < |vs| && vs[j] == v;
        assert Chosen(chosen[j]) in row.choices;
      }
    }
    assert forall x :: Chosen(x) in row.choices && x in numToId ==> numToId[x] in vs by {
      forall x | Chosen(x) in row.choices && x in numToId ensures numToId[x] in vs {
        var j :| 0 <= j < |chosen| && chosen[j] == x;
        assert vs[j] == numToId[x];
      }
    }
    vs
  }

  /** The edges the rows contribute, row by row. */
  function EdgesOf(rows: seq<Respondent>, numToId: map<int, NodeId>): set<(NodeId, NodeId)>
    requires Resolvable(rows, numToId)
  {
    if rows == [] then {}
    else
      var last := rows[|rows| - 1];
      assert forall c :: c in last.choices && c.Chosen? ==> c.num in numToId;
      EdgesOf(rows[..|rows| - 1], numToId) + Fan(last.identifier, RowTargets(last, numToId))
  }

  function Identifiers(rows: seq<Respondent>): set<NodeId> {
    set i | 0 <= i < |rows| :: rows[i].identifier
  }

  function Targets(edges: set<(NodeId, NodeId)>): set<NodeId> {
    set e | e in edges :: e.1
  }

  /** The graph `create_graph` returns when every choice number resolves. */
  function ChoiceGraph(rows: seq<Respondent>, numToId: map<int, NodeId>): DiGraph
    requires Resolvable(rows, numToId)
  {
    var edges := EdgesOf(rows, numToId);
    DiGraph(Identifiers(rows) + Targets(edges), edges)
  }

  lemma PrefixResolvable(rows: seq<Respondent>, numToId: map<int, NodeId>, n: nat)
    requires n <= |rows| && Resolvable(rows, numToId)
    ensures Resolvable(rows[..n], numToId)
  {
    forall i, c | 0 <= i < n && c in rows[..n][i].choices && c.Chosen? ensures c.num in numToId {
      assert rows[..n][i] == rows[i];
    }
  }

  /** Some row of u lists a choice number that maps to v. */
  ghost predicate Chose(rows: seq<Respondent>, numToId: map<int, NodeId>, u: NodeId, v: NodeId) {
    exists i, x :: 0 <= i < |rows| && rows[i].identifier == u && Chosen(x) in rows[i].choices
                   && x in numToId && numToId[x] == v
  }

  /** A choice among the rows is one among all but the last row, or one of the last row. */
  lemma ChoseSnoc(rows: seq<Respondent>, numToId: map<int, NodeId>, u: NodeId, v: NodeId)
    requires rows != []
    ensures var last := rows[|rows| - 1];
      Chose(rows, numToId, u, v) <==>
        Chose(rows[..|rows| - 1], numToId, u, v)
        || (last.identifier == u && exists x :: Chosen(x) in last.choices && x in numToId && numToId[x] == v)
  {
    var init := rows[..|rows| - 1];
    if Chose(init, numToId, u, v) {
      var i, x :| 0 <= i < |init| && init[i].identifier == u && Chosen(x) in init[i].choices
                  && x in numToId && numToId[x] == v;
      assert rows[i] == init[i];
    }
    if Chose(rows, numToId, u, v) {
      var i, x :| 0 <= i < |rows| && rows[i].identifier == u && Chosen(x) in rows[i].choices
                  && x in numToId && numToId[x] == v;
      if i < |rows| - 1 {
        assert init[i] == rows[i];
      }
    }
  }

  /** An edge (u, v) exists iff some row of u lists a choice number that maps to v. */
  lemma {:induction false} EdgesOfCharacterization(rows: seq<Respondent>, numToId: map<int, NodeId>, u: NodeId, v: NodeId)
    requires Resolvable(rows, numToId)
    ensures (u, v) in EdgesOf(rows, numToId) <==>
      exists i, x :: 0 <= i < |rows| && rows[i].identifier == u && Chosen(x) in rows[i].choices
                     && x in numToId && numToId[x] == v
  {
    if rows != [] {
      var init := rows[..|rows| - 1];
      var last := rows[|rows| - 1];
      PrefixResolvable(rows, numToId, |rows| - 1);
      EdgesOfCharacterization(init, numToId, u, v);
      assert forall c :: c in last.choices && c.Chosen? ==> c.num in numToId;
      ChoseSnoc(rows, numToId, u, v);
    }
  }

  /** Every identifier is a node, also one with no choices, and every edge joins two nodes. */
  lemma ChoiceGraphNodes(rows: seq<Respondent>, numToId: map<int, NodeId>)
    requires Resolvable(rows, numToId)
    ensures ChoiceGraph(rows, numToId).Valid()
    ensures forall i :: 0 <= i < |rows| ==> rows[i].identifier in ChoiceGraph(rows, numToId).nodes
  {
    var g := ChoiceGraph(rows, numToId);
    forall u, v | (u, v) in g.edges ensures u in g.nodes && v in g.nodes {
      EdgesOfCharacterization(rows, numToId, u, v);
      var i, x :| 0 <= i < |rows| && rows[i].identifier == u && Chosen(x) in rows[i].choices
                  && x in numToId && numToId[x] == v;
      assert (u, v).1 == v;
    }
  }

  /** `for v in vs: g.add_edge(u, v)`: each call adds u, v and the edge (u, v). */
  method AddEdges(u: NodeId, vs: seq<NodeId>, nodes: set<NodeId>, edges: set<(NodeId, NodeId)>)
    returns (nodes': set<NodeId>, edges': set<(NodeId, NodeId)>)
    ensures edges' == edges + Fan(u, vs)
    ensures nodes' == nodes + (if vs == [] then {} else {u}) + Members(vs)
  {
    nodes', edges' := nodes, edges;
    var j := 0;
    while j < |vs|
      invariant 0 <= j <= |vs|
      invariant edges' == edges + Fan(u, vs[..j])
      invariant nodes' == nodes + (if j == 0 then {} else {u}) + Members(vs[..j])
    {
      assert vs[..j + 1][..j] == vs[..j];
      assert Members(vs[..j + 1]) == Members(vs[..j]) + {vs[j]} by {
        assert vs[..j + 1] == vs[..j] + [vs[j]];
      }
      edges' := edges' + {(u, vs[j])};
      nodes' := nodes' + {u, vs[j]};
      j := j + 1;
    }
    assert vs[..j] == vs;
  }

  lemma NextPrefix(rows: seq<Respondent>, numToId: map<int, NodeId>, i: nat)
    requires i < |rows| && Resolvable(rows[..i], numToId)
    requires forall c :: c in rows[i].choices && c.Chosen? ==> c.num in numToId
    ensures Resolvable(rows[..i + 1], numToId)
    ensures EdgesOf(rows[..i + 1], numToId)
         == EdgesOf(rows[..i], numToId) + Fan(rows[i].identifier, RowTargets(rows[i], numToId))
  {
    var p := rows[..i + 1];
    assert p[..i] == rows[..i] && p[i] == rows[i];
    forall i', c | 0 <= i' < |p| && c in p[i'].choices && c.Chosen? ensures c.num in numToId {
      if i' < i {
        assert p[i'] == rows[..i][i'];
      }
    }
  }

  lemma TargetsFan(before: set<(NodeId, NodeId)>, u: NodeId, vs: seq<NodeId>)
    ensures Targets(before + Fan(u, vs)) == Targets(before) + Members(vs)
  {
    forall v | v in Members(vs) ensures v in Targets(before + Fan(u, vs)) {
      assert (u, v) in Fan(u, vs);
      assert (u, v).1 == v;
    }
  }

  /** Adding a row's fan keeps the node set equal to the identifiers plus the edge targets. */
  lemma NodesStep(ids: set<NodeId>, before: set<(NodeId, NodeId)>, u: NodeId, vs: seq<NodeId>)
    requires u in ids
    ensures ids + Targets(before) + (if vs == [] then {} else {u}) + Members(vs) == ids + Targets(before + Fan(u, vs))
  {
    TargetsFan(before, u, vs);
  }

  /** Row i resolves exactly when its mapped choice list does. */
  lemma RowResolution(rows: seq<Respondent>, numToId: map<int, NodeId>, i: nat)
    requires i < |rows|
    ensures var vs := MapChoices(Present(rows[i].choices), numToId);
      && (vs.Err? ==> !Resolvable(rows, numToId))
      && (vs.Ok? ==> (forall c :: c in rows[i].choices && c.Chosen? ==> c.num in numToId)
                     && vs.value == RowTargets(rows[i], numToId))
  {
    var chosen := Present(rows[i].choices);
    if MapChoices(chosen, numToId).Err? {
      var j :| 0 <= j < |chosen| && chosen[j] !in numToId;
      assert Chosen(chosen[j]) in rows[i].choices;
    } else {
      assert forall c :: c in rows[i].choices && c.Chosen? ==> c.num in chosen;
    }
  }

  /** `create_graph`: a KeyError when a choice number has no identifier. */
  method CreateGraph(rows: seq<Respondent>, numToId: map<int, NodeId>) returns (r: Result<DiGraph>)
    ensures r.Ok? <==> Resolvable(rows, numToId)
    ensures r.Ok? ==> Resolvable(rows, numToId) && r.value == ChoiceGraph(rows, numToId)
    ensures r.Err? ==> r.error == KeyError
  {
    var nodes := Identifiers(rows);
    var edges: set<(NodeId, NodeId)> := {};
    ghost var ids := Identifiers(rows);
    var i := 0;
    while i < |rows|
      invariant 0 <= i <= |rows|
      invariant Resolvable(rows[..i], numToId)
      invariant edges == EdgesOf(rows[..i], numToId)
      invariant nodes == ids + Targets(edges)
    {
      var u := rows[i].identifier;
      var chosen := Present(rows[i].choices);
      var vs := MapChoices(chosen, numToId);
      RowResolution(rows, numToId, i);
      if vs.Err? {
        return Err(KeyError);
      }
      assert u in ids;
      NodesStep(ids, edges, u, vs.value);
      nodes, edges := AddEdges(u, vs.value, nodes, edges);
      NextPrefix(rows, numToId, i);
      i := i + 1;
    }
    assert rows[..i] == rows;
    r := Ok(DiGraph(nodes, edges));
  }

  /** The identifiers of the chosen numbers, one per number: at most |s| of them. */
  function Image(s: seq<int>, numToId: map<int, NodeId>): (r: set<NodeId>)
    ensures |r| <= |s|
    ensures forall x :: x in s && x in numToId ==> numToId[x] in r
  {
    if s == [] then {}
    else
      var rest := Image(s[1..], numToId);
      assert forall x :: x in s ==> x == s[0] || x in s[1..];
      (if s[0] in numToId then {numToId[s[0]]} else {}) + rest
  }

  /**
   * With distinct identifiers a respondent's out-degree is at most their number of
   * non-NaN choices, and so at most `NumChoices` when the row has the six choice cells.
   */
  lemma OutDegreeBound(rows: seq<Respondent>, numToId: map<int, NodeId>, i: nat)
    requires Resolvable(rows, numToId)
    requires i < |rows|
    requires forall a, b :: 0 <= a < b < |rows| ==> rows[a].identifier != rows[b].identifier
    ensures ChoiceGraph(rows, numToId).OutDegree(rows[i].identifier) <= |Present(rows[i].choices)|
    ensures |rows[i].choices| == NumChoices ==> ChoiceGraph(rows, numToId).OutDegree(rows[i].identifier) <= NumChoices
  {
    var g := ChoiceGraph(rows, numToId);
    var u := rows[i].identifier;
    var image := Image(Present(rows[i].choices), numToId);
    assert g.OutNeighbours(u) <= image by {
      forall v | v in g.OutNeighbours(u) ensures v in image {
        var e :| e in g.edges && e.0 == u && e.1 == v;
        assert (u, v) == e;
        EdgesOfCharacterization(rows, numToId, u, v);
        var i', x :| 0 <= i' < |rows| && rows[i'].identifier == u && Chosen(x) in rows[i'].choices
                     && x in numToId && numToId[x] == v;
        assert i' == i;
        assert x in Present(rows[i].choices);
      }
    }
    SubsetCardinality(g.OutNeighbours(u), image);
  }
}
