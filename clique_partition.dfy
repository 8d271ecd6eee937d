/**
 * `CliqueSlides.find_cliques_with_limit`: choose disjoint seed groups from the
 * maximal cliques of the undirected view of the choice graph.
 *
 * The maximal cliques themselves come from networkx; here they are an input
 * sequence `found`, each required to be a clique of the graph.
 */
module CliquePartition {
  import opened Sorting
  import opened DiGraphs

  /** `sorted(clique)`. */
  const SortMembers: seq<NodeId> -> seq<NodeId> := c => Sort(c, IntLe())

  /**
   * Lines 45-49: the cliques sorted longest first, each clique sorted, then the
   * list sorted ascending by `(len(x), x)`. This is the order of the first pass.
   */
  function Ordered(found: seq<seq<NodeId>>): seq<seq<NodeId>> {
    Sort(MapSeq(SortMembers, Sort(found, LongestFirst())), CliqueOrder())
  }

  /** The descending sort of line 45 has no effect on the order of the first pass. */
  lemma Line45Overridden(found: seq<seq<NodeId>>)
    ensures Ordered(found) == Sort(MapSeq(SortMembers, found), CliqueOrder())
    ensures multiset(Ordered(found)) == multiset(MapSeq(SortMembers, found))
  {
    SortPermutes(found, LongestFirst());
    SortPermutes(MapSeq(SortMembers, Sort(found, LongestFirst())), CliqueOrder());
    MapSeqPermutation(SortMembers, Sort(found, LongestFirst()), found);
    SortIgnoresInputOrder(MapSeq(SortMembers, Sort(found, LongestFirst())), MapSeq(SortMembers, found), CliqueOrder());
  }

  /**
   * The first pass visits the cliques shortest first, equal lengths in Python
   * list order, and each clique's members in ascending order.
   */
  lemma ProcessingOrder(found: seq<seq<NodeId>>)
    ensures forall i, j :: 0 <= i < j < |Ordered(found)| ==> CliqueLe(Ordered(found)[i], Ordered(found)[j])
    ensures forall i, j :: 0 <= i < j < |Ordered(found)| ==> |Ordered(found)[i]| <= |Ordered(found)[j]|
    ensures forall k, i, j :: 0 <= k < |Ordered(found)| && 0 <= i < j < |Ordered(found)[k]| ==>
      Ordered(found)[k][i] <= Ordered(found)[k][j]
  {
    var o := Ordered(found);
    assert SortedBy(o, CliqueOrder());
    forall k | 0 <= k < |o| ensures SortedBy(o[k], IntLe()) {
      MemberOfOrdered(found, o[k]);
    }
  }

  /** Each clique the first pass visits is `sorted` of an input clique. */
  lemma MemberOfOrdered(found: seq<seq<NodeId>>, d: seq<NodeId>)
    requires d in Ordered(found)
    ensures exists m :: 0 <= m < |found| && d == Sort(found[m], IntLe())
  {
    Line45Overridden(found);
    assert d in multiset(Ordered(found));
    InMapSeq(SortMembers, found, d);
    var m :| 0 <= m < |found| && d == SortMembers(found[m]);
  }

  /** Every clique of the first pass is a sorted copy of an input clique. */
  lemma OrderedFromInput(g: DiGraph, found: seq<seq<NodeId>>)
    requires forall c :: c in found ==> IsClique(g, c)
    ensures forall d :: d in Ordered(found) ==> IsClique(g, d) && FromInput(d, found)
  {
    forall d | d in Ordered(found) ensures IsClique(g, d) && FromInput(d, found) {
      MemberOfOrdered(found, d);
      var m :| 0 <= m < |found| && d == Sort(found[m], IntLe());
      SortPermutes(found[m], IntLe());
      CliquePermutation(g, found[m], d);
    }
  }

  // ---------------------------------------------------------------------
  // The two passes

  /** The lists and the set the passes grow: `non_overlapping_cliques`, `overlapping_cliques`, `nodes_covered`. */
  datatype Selection = Selection(groups: seq<seq<NodeId>>, overlapping: seq<seq<NodeId>>, covered: set<NodeId>)

  const Start := Selection([], [], {})

  /** `not any(node in nodes_covered for node in clique)`. */
  predicate Uncovered(c: seq<NodeId>, covered: set<NodeId>) {
    forall i :: 0 <= i < |c| ==> c[i] !in covered
  }

  /** `max_num_cliques != -1 and len(non_overlapping_cliques) >= max_num_cliques`. */
  predicate CapReached(groups: seq<seq<NodeId>>, maxNum: int) {
    maxNum != -1 && |groups| >= maxNum
  }

  /** One iteration of the first loop, without its `break`. */
  function FirstStep(st: Selection, c: seq<NodeId>, minSize: int): Selection {
    if Uncovered(c, st.covered) && |c| > minSize then
      st.(groups := st.groups + [c], covered := st.covered + Members(c))
    else if |c| > minSize then
      st.(overlapping := st.overlapping + [c])
    else
      st
  }

  /** The first loop (lines 56-66): it stops right after an acceptance that reaches the cap. */
  function FirstPass(cs: seq<seq<NodeId>>, st: Selection, minSize: int, maxNum: int): Selection
  {
    if cs == [] then st
    else
      var st' := FirstStep(st, cs[0], minSize);
      if |st'.groups| > |st.groups| && CapReached(st'.groups, maxNum) then st'
      else FirstPass(cs[1..], st', minSize, maxNum)
  }

  /** `list(overlapping_set - overlapping_nodes)`, kept in the clique's own order. */
  function Residual(c: seq<NodeId>, covered: set<NodeId>): (r: seq<NodeId>)
    ensures forall x :: x in r <==> x in c && x !in covered
  {
    if c == [] then []
    else
      assert forall x :: x in c <==> x == c[0] || x in c[1..];
      (if c[0] in covered then [] else [c[0]]) + Residual(c[1..], covered)
  }

  /** One iteration of the second loop, without its `break`. */
  function ResidualStep(st: Selection, c: seq<NodeId>, minSize: int): Selection {
    var overlap := Members(c) * st.covered;
    if |overlap| > 0 && |c| - |overlap| > minSize then
      var res := Residual(c, st.covered);
      st.(groups := st.groups + [res], covered := st.covered + Members(res))
    else
      st
  }

  /** The second loop (lines 70-82). */
  function ResidualPass(cs: seq<seq<NodeId>>, st: Selection, minSize: int, maxNum: int): Selection
  {
    if cs == [] then st
    else
      var st' := ResidualStep(st, cs[0], minSize);
      if |st'.groups| > |st.groups| && CapReached(st'.groups, maxNum) then st'
      else ResidualPass(cs[1..], st', minSize, maxNum)
  }

  /** The second loop runs only while the cap is not reached (line 69). */
  predicate ResidualRuns(first: Selection, maxNum: int) {
    maxNum == -1 || |first.groups| < maxNum
  }

  /** Both passes: the groups and the covered nodes. */
  function Partition(found: seq<seq<NodeId>>, minSize: int, maxNum: int): Selection {
    var first := FirstPass(Ordered(found), Start, minSize, maxNum);
    if ResidualRuns(first, maxNum) then ResidualPass(first.overlapping, first, minSize, maxNum)
    else first
  }

  // ---------------------------------------------------------------------
  // The method

  /** The first loop (lines 52-66), with its `break`. */
  method SelectDisjoint(ordered: seq<seq<NodeId>>, minSize: int, maxNum: int)
    returns (groups: seq<seq<NodeId>>, overlapping: seq<seq<NodeId>>, covered: set<NodeId>)
    ensures Selection(groups, overlapping, covered) == FirstPass(ordered, Start, minSize, maxNum)
  {
    covered := {};
    overlapping := [];
    groups := [];
    var i := 0;
    while i < |ordered|
      invariant 0 <= i <= |ordered|
      invariant FirstPass(ordered[i..], Selection(groups, overlapping, covered), minSize, maxNum)
             == FirstPass(ordered, Start, minSize, maxNum)
    {
      var c := ordered[i];
      ghost var before := Selection(groups, overlapping, covered);
      assert ordered[i..][0] == c && ordered[i..][1..] == ordered[i + 1..];
      if Uncovered(c, covered) && |c| > minSize {
        groups := groups + [c];
        covered := covered + Members(c);
        if maxNum != -1 && |groups| >= maxNum {
          assert Selection(groups, overlapping, covered) == FirstPass(ordered[i..], before, minSize, maxNum);
          return;
        }
      } else if |c| > minSize {
        overlapping := overlapping + [c];
      }
      assert Selection(groups, overlapping, covered) == FirstStep(before, c, minSize);
      i := i + 1;
    }
  }

  /** The second loop (lines 70-82), with its `break`; it leaves `overlapping` as it is. */
  method AddResiduals(first: Selection, minSize: int, maxNum: int)
    returns (groups: seq<seq<NodeId>>, covered: set<NodeId>)
    ensures Selection(groups, first.overlapping, covered) == ResidualPass(first.overlapping, first, minSize, maxNum)
  {
    groups, covered := first.groups, first.covered;
    var overlapping := first.overlapping;
    var j := 0;
    while j < |overlapping|
      invariant 0 <= j <= |overlapping|
      invariant ResidualPass(overlapping[j..], Selection(groups, overlapping, covered), minSize, maxNum)
             == ResidualPass(overlapping, first, minSize, maxNum)
    {
      var c := overlapping[j];
      ghost var before := Selection(groups, overlapping, covered);
      assert overlapping[j..][0] == c && overlapping[j..][1..] == overlapping[j + 1..];
      var overlappingNodes := Members(c) * covered;
      if |overlappingNodes| > 0 && |c| - |overlappingNodes| > minSize {
        var res := Residual(c, covered);
        groups := groups + [res];
        covered := covered + Members(res);
        if maxNum != -1 && |groups| >= maxNum {
          assert Selection(groups, overlapping, covered) == ResidualPass(overlapping[j..], before, minSize, maxNum);
          return;
        }
      }
      assert Selection(groups, overlapping, covered) == ResidualStep(before, c, minSize);
      j := j + 1;
    }
  }

  /** `find_cliques_with_limit`: the groups and `remaining_vertices`. */
  method FindCliquesWithLimit(g: DiGraph, found: seq<seq<NodeId>>, minSize: int, maxNum: int)
    returns (groups: seq<seq<NodeId>>, remaining: set<NodeId>)
    requires forall c :: c in found ==> IsClique(g, c)
    ensures groups == Partition(found, minSize, maxNum).groups
    ensures remaining == g.nodes - Partition(found, minSize, maxNum).covered
    ensures forall k :: 0 <= k < |groups| ==> |groups[k]| > minSize && IsClique(g, groups[k]) && FromInput(groups[k], found)
    ensures forall k, l :: 0 <= k < l < |groups| ==> Members(groups[k]) !! Members(groups[l])
    ensures forall x :: x in g.nodes <==> x in remaining || exists k :: 0 <= k < |groups| && x in groups[k]
    ensures forall x, k :: x in remaining && 0 <= k < |groups| ==> x !in groups[k]
    ensures WithinCap(groups, maxNum)
  {
    var ordered := Sort(found, LongestFirst());
    ordered := MapSeq(SortMembers, ordered);
    ordered := Sort(ordered, CliqueOrder());
    var overlapping, covered;
    groups, overlapping, covered := SelectDisjoint(ordered, minSize, maxNum);
    if maxNum == -1 || |groups| < maxNum {
      groups, covered := AddResiduals(Selection(groups, overlapping, covered), minSize, maxNum);
    }
    remaining := g.nodes - covered;
    PartitionProperties(g, found, minSize, maxNum);
    PartitionCap(found, minSize, maxNum);
  }

  // ---------------------------------------------------------------------
  // Properties of the partition

  /** The group's members all belong to one input clique. */
  ghost predicate FromInput(d: seq<NodeId>, found: seq<seq<NodeId>>) {
    exists c :: c in found && Members(d) <= Members(c)
  }

  ghost predicate Candidate(g: DiGraph, found: seq<seq<NodeId>>, d: seq<NodeId>) {
    IsClique(g, d) && FromInput(d, found)
  }

  /** What both passes keep true of their state. */
  ghost predicate Consistent(g: DiGraph, found: seq<seq<NodeId>>, minSize: int, st: Selection) {
    && (forall k :: 0 <= k < |st.groups| ==> |st.groups[k]| > minSize && Candidate(g, found, st.groups[k]))
    && (forall k, l :: 0 <= k < l < |st.groups| ==> Members(st.groups[k]) !! Members(st.groups[l]))
    && (forall x :: x in st.covered <==> exists k :: 0 <= k < |st.groups| && x in st.groups[k])
    && (forall k :: 0 <= k < |st.overlapping| ==>
          |st.overlapping[k]| > minSize && Candidate(g, found, st.overlapping[k])
          && !Uncovered(st.overlapping[k], st.covered))
  }

  /** Accepting a group none of whose members is covered keeps the state consistent. */
  lemma AcceptConsistent(g: DiGraph, found: seq<seq<NodeId>>, minSize: int, st: Selection, d: seq<NodeId>)
    requires Consistent(g, found, minSize, st)
    requires |d| > minSize && Candidate(g, found, d)
    requires forall x :: x in d ==> x !in st.covered
    ensures Consistent(g, found, minSize, st.(groups := st.groups + [d], covered := st.covered + Members(d)))
  {
    var st' := st.(groups := st.groups + [d], covered := st.covered + Members(d));
    forall k | 0 <= k < |st.groups| ensures Members(st.groups[k]) !! Members(d) {
      forall x | x in st.groups[k] ensures x !in d {
        assert x in st.covered;
      }
    }
    assert st'.groups[|st.groups|] == d;
    forall x | x in st'.covered ensures exists k :: 0 <= k < |st'.groups| && x in st'.groups[k] {
      if x !in st.covered {
        assert x in st'.groups[|st.groups|];
      } else {
        var k :| 0 <= k < |st.groups| && x in st.groups[k];
        assert st'.groups[k] == st.groups[k];
      }
    }
    forall k | 0 <= k < |st.overlapping| ensures !Uncovered(st.overlapping[k], st'.covered) {
      var i :| 0 <= i < |st.overlapping[k]| && st.overlapping[k][i] in st.covered;
    }
  }

  lemma FirstStepConsistent(g: DiGraph, found: seq<seq<NodeId>>, minSize: int, st: Selection, c: seq<NodeId>)
    requires Consistent(g, found, minSize, st) && Candidate(g, found, c)
    ensures Consistent(g, found, minSize, FirstStep(st, c, minSize))
  {
    if Uncovered(c, st.covered) && |c| > minSize {
      AcceptConsistent(g, found, minSize, st, c);
    } else if |c| > minSize {
      assert FirstStep(st, c, minSize).overlapping[|st.overlapping|] == c;
    }
  }

  lemma {:induction false} FirstPassConsistent(g: DiGraph, found: seq<seq<NodeId>>, minSize: int, maxNum: int,
                                               cs: seq<seq<NodeId>>, st: Selection)
    requires Consistent(g, found, minSize, st)
    requires forall d :: d in cs ==> Candidate(g, found, d)
    ensures Consistent(g, found, minSize, FirstPass(cs, st, minSize, maxNum))
    ensures st.groups <= FirstPass(cs, st, minSize, maxNum).groups
  {
    if cs != [] {
      assert cs[0] in cs;
      FirstStepConsistent(g, found, minSize, st, cs[0]);
      assert forall d :: d in cs[1..] ==> d in cs;
      FirstPassConsistent(g, found, minSize, maxNum, cs[1..], FirstStep(st, cs[0], minSize));
    }
  }

  lemma DistinctTail(c: seq<NodeId>)
    requires Distinct(c) && c != []
    ensures Distinct(c[1..]) && c[0] !in c[1..]
  {
    assert forall j :: 0 <= j < |c[1..]| ==> c[1..][j] == c[j + 1] != c[0];
  }

  /** With distinct members, the residual has `len(clique) - len(overlapping_nodes)` members. */
  lemma {:induction false} ResidualSize(c: seq<NodeId>, covered: set<NodeId>)
    requires Distinct(c)
    ensures |Residual(c, covered)| == |c| - |Members(c) * covered|
  {
    if c != [] {
      var tail := c[1..];
      DistinctTail(c);
      ResidualSize(tail, covered);
      assert Members(c) == {c[0]} + Members(tail) by {
        assert c == [c[0]] + tail;
      }
      if c[0] in covered {
        assert Members(c) * covered == {c[0]} + (Members(tail) * covered);
      } else {
        assert Members(c) * covered == Members(tail) * covered;
      }
    }
  }

  /** The residual of a list of distinct nodes has distinct nodes. */
  lemma {:induction false} ResidualDistinct(c: seq<NodeId>, covered: set<NodeId>)
    requires Distinct(c)
    ensures Distinct(Residual(c, covered))
  {
    if c != [] {
      var tail := c[1..];
      DistinctTail(c);
      ResidualDistinct(tail, covered);
      var rest := Residual(tail, covered);
      if c[0] !in covered {
        var r := Residual(c, covered);
        assert r == [c[0]] + rest;
        forall i, j | 0 <= i < j < |r| ensures r[i] != r[j] {
          assert r[j] == rest[j - 1];
          assert rest[j - 1] in rest;
          if i > 0 {
            assert r[i] == rest[i - 1];
          }
        }
      }
    }
  }

  /** The residual of a candidate clique is a candidate clique of `len(clique) - len(overlapping_nodes)` members. */
  lemma ResidualCandidate(g: DiGraph, found: seq<seq<NodeId>>, c: seq<NodeId>, covered: set<NodeId>)
    requires Candidate(g, found, c)
    ensures Candidate(g, found, Residual(c, covered))
    ensures |Residual(c, covered)| == |c| - |Members(c) * covered|
  {
    var res := Residual(c, covered);
    ResidualSize(c, covered);
    ResidualDistinct(c, covered);
    assert Members(res) <= Members(c);
    var src :| src in found && Members(c) <= Members(src);
  }

  lemma ResidualStepConsistent(g: DiGraph, found: seq<seq<NodeId>>, minSize: int, st: Selection, c: seq<NodeId>)
    requires Consistent(g, found, minSize, st) && Candidate(g, found, c)
    ensures Consistent(g, found, minSize, ResidualStep(st, c, minSize))
  {
    var overlap := Members(c) * st.covered;
    if |overlap| > 0 && |c| - |overlap| > minSize {
      ResidualCandidate(g, found, c, st.covered);
      AcceptConsistent(g, found, minSize, st, Residual(c, st.covered));
    }
  }

  lemma {:induction false} ResidualPassConsistent(g: DiGraph, found: seq<seq<NodeId>>, minSize: int, maxNum: int,
                                                  cs: seq<seq<NodeId>>, st: Selection)
    requires Consistent(g, found, minSize, st)
    requires forall d :: d in cs ==> Candidate(g, found, d)
    ensures Consistent(g, found, minSize, ResidualPass(cs, st, minSize, maxNum))
    ensures st.groups <= ResidualPass(cs, st, minSize, maxNum).groups
    ensures ResidualPass(cs, st, minSize, maxNum).overlapping == st.overlapping
  {
    if cs != [] {
      assert cs[0] in cs;
      ResidualStepConsistent(g, found, minSize, st, cs[0]);
      assert forall d :: d in cs[1..] ==> d in cs;
      ResidualPassConsistent(g, found, minSize, maxNum, cs[1..], ResidualStep(st, cs[0], minSize));
    }
  }

  /**
   * The groups are cliques of the graph with more than `minSize` members, each
   * within an input clique, pairwise disjoint; the covered nodes are exactly
   * their members, and all are nodes of the graph.
   */
  lemma PartitionProperties(g: DiGraph, found: seq<seq<NodeId>>, minSize: int, maxNum: int)
    requires forall c :: c in found ==> IsClique(g, c)
    ensures var p := Partition(found, minSize, maxNum);
      && (forall k :: 0 <= k < |p.groups| ==> |p.groups[k]| > minSize && IsClique(g, p.groups[k]) && FromInput(p.groups[k], found))
      && (forall k, l :: 0 <= k < l < |p.groups| ==> Members(p.groups[k]) !! Members(p.groups[l]))
      && (forall x :: x in p.covered <==> exists k :: 0 <= k < |p.groups| && x in p.groups[k])
      && p.covered <= g.nodes
  {
    PartitionConsistent(g, found, minSize, maxNum);
    ConsistentGroups(g, found, minSize, Partition(found, minSize, maxNum));
  }

  /** Both passes keep the selection consistent. */
  lemma PartitionConsistent(g: DiGraph, found: seq<seq<NodeId>>, minSize: int, maxNum: int)
    requires forall c :: c in found ==> IsClique(g, c)
    ensures Consistent(g, found, minSize, Partition(found, minSize, maxNum))
  {
    OrderedFromInput(g, found);
    FirstPassConsistent(g, found, minSize, maxNum, Ordered(found), Start);
    var first := FirstPass(Ordered(found), Start, minSize, maxNum);
    if ResidualRuns(first, maxNum) {
      assert forall d :: d in first.overlapping ==> Candidate(g, found, d);
      ResidualPassConsistent(g, found, minSize, maxNum, first.overlapping, first);
    }
  }

  /** What a consistent selection says about its groups and its covered set. */
  lemma ConsistentGroups(g: DiGraph, found: seq<seq<NodeId>>, minSize: int, p: Selection)
    requires Consistent(g, found, minSize, p)
    ensures forall k :: 0 <= k < |p.groups| ==> |p.groups[k]| > minSize && IsClique(g, p.groups[k]) && FromInput(p.groups[k], found)
    ensures p.covered <= g.nodes
  {
    forall x | x in p.covered ensures x in g.nodes {
      var k :| 0 <= k < |p.groups| && x in p.groups[k];
    }
  }

  // ---------------------------------------------------------------------
  // The cap on the number of groups

  /** The loop may still accept: no cap, or below it, or nothing accepted yet. */
  predicate Open(st: Selection, maxNum: int) {
    maxNum == -1 || |st.groups| < maxNum || st.groups == []
  }

  /** `max_num_cliques` groups at most; a cap below 1 still lets the first acceptance through. */
  predicate WithinCap(groups: seq<seq<NodeId>>, maxNum: int) {
    maxNum != -1 ==> |groups| <= if maxNum >= 1 then maxNum else 1
  }

  lemma {:induction false} FirstPassCap(cs: seq<seq<NodeId>>, st: Selection, minSize: int, maxNum: int)
    requires Open(st, maxNum)
    ensures WithinCap(FirstPass(cs, st, minSize, maxNum).groups, maxNum)
  {
    if cs != [] {
      var st' := FirstStep(st, cs[0], minSize);
      if !(|st'.groups| > |st.groups| && CapReached(st'.groups, maxNum)) {
        FirstPassCap(cs[1..], st', minSize, maxNum);
      }
    }
  }

  lemma {:induction false} ResidualPassCap(cs: seq<seq<NodeId>>, st: Selection, minSize: int, maxNum: int)
    requires Open(st, maxNum)
    ensures WithinCap(ResidualPass(cs, st, minSize, maxNum).groups, maxNum)
  {
    if cs != [] {
      var st' := ResidualStep(st, cs[0], minSize);
      if !(|st'.groups| > |st.groups| && CapReached(st'.groups, maxNum)) {
        ResidualPassCap(cs[1..], st', minSize, maxNum);
      }
    }
  }

  /** The cap holds after both passes. */
  lemma PartitionCap(found: seq<seq<NodeId>>, minSize: int, maxNum: int)
    ensures WithinCap(Partition(found, minSize, maxNum).groups, maxNum)
  {
    FirstPassCap(Ordered(found), Start, minSize, maxNum);
    var first := FirstPass(Ordered(found), Start, minSize, maxNum);
    if ResidualRuns(first, maxNum) {
      ResidualPassCap(first.overlapping, first, minSize, maxNum);
    }
  }

  // ---------------------------------------------------------------------
  // What the second pass adds

  /** Every group the residual pass adds is the uncovered part of one of the cliques it visits. */
  /** A group in the sources' range lies within one of the cliques `cs`. */
  ghost predicate GroupsFrom(groups: seq<seq<NodeId>>, from: nat, cs: seq<seq<NodeId>>) {
    forall k :: from <= k < |groups| ==> exists o :: o in cs && Members(groups[k]) <= Members(o)
  }

  /** The residual pass only appends, and each group it adds lies within a clique it visits. */
  lemma {:induction false} ResidualPassSources(cs: seq<seq<NodeId>>, st: Selection, minSize: int, maxNum: int)
    ensures st.groups <= ResidualPass(cs, st, minSize, maxNum).groups
    ensures GroupsFrom(ResidualPass(cs, st, minSize, maxNum).groups, |st.groups|, cs)
  {
    if cs != [] {
      var st' := ResidualStep(st, cs[0], minSize);
      assert cs[0] in cs;
      if |st'.groups| > |st.groups| {
        assert st'.groups == st.groups + [Residual(cs[0], st.covered)];
        assert Members(Residual(cs[0], st.covered)) <= Members(cs[0]);
      }
      assert GroupsFrom(st'.groups, |st.groups|, cs);
      if !(|st'.groups| > |st.groups| && CapReached(st'.groups, maxNum)) {
        ResidualPassSources(cs[1..], st', minSize, maxNum);
        var r := ResidualPass(cs[1..], st', minSize, maxNum);
        assert forall d :: d in cs[1..] ==> d in cs;
        assert GroupsFrom(r.groups, |st.groups|, cs) by {
          forall k | |st.groups| <= k < |r.groups| ensures exists o :: o in cs && Members(r.groups[k]) <= Members(o) {
            if k < |st'.groups| {
              assert r.groups[k] == st'.groups[k];
            }
          }
        }
      }
    }
  }

  /**
   * The second pass runs only when the first left the cap unreached, visits
   * only cliques the first rejected for overlap alone, and only appends.
   */
  lemma ResidualPassScope(g: DiGraph, found: seq<seq<NodeId>>, minSize: int, maxNum: int)
    requires forall c :: c in found ==> IsClique(g, c)
    ensures var first := FirstPass(Ordered(found), Start, minSize, maxNum);
      var p := Partition(found, minSize, maxNum);
      && first.groups <= p.groups
      && (!ResidualRuns(first, maxNum) ==> p == first)
      && (forall o :: o in first.overlapping ==> o in Ordered(found) && |o| > minSize && !Uncovered(o, first.covered))
      && GroupsFrom(p.groups, |first.groups|, first.overlapping)
      && (forall k :: |first.groups| <= k < |p.groups| ==> Members(p.groups[k]) !! first.covered)
  {
    OrderedFromInput(g, found);
    FirstPassConsistent(g, found, minSize, maxNum, Ordered(found), Start);
    FirstPassOverlapping(Ordered(found), Ordered(found), Start, minSize, maxNum);
    var first := FirstPass(Ordered(found), Start, minSize, maxNum);
    ResidualPassSources(first.overlapping, first, minSize, maxNum);
    PartitionProperties(g, found, minSize, maxNum);
    forall o | o in first.overlapping ensures |o| > minSize && !Uncovered(o, first.covered) {
      var k :| 0 <= k < |first.overlapping| && first.overlapping[k] == o;
    }
    var p := Partition(found, minSize, maxNum);
    forall k | |first.groups| <= k < |p.groups| ensures Members(p.groups[k]) !! first.covered {
      forall x | x in first.covered ensures x !in Members(p.groups[k]) {
        var j :| 0 <= j < |first.groups| && x in first.groups[j];
        assert p.groups[j] == first.groups[j];
        assert Members(p.groups[j]) !! Members(p.groups[k]);
      }
    }
  }

  lemma {:induction false} FirstPassOverlapping(all: seq<seq<NodeId>>, cs: seq<seq<NodeId>>, st: Selection,
                                                minSize: int, maxNum: int)
    requires forall o :: o in st.overlapping ==> o in all
    requires forall d :: d in cs ==> d in all
    ensures forall o :: o in FirstPass(cs, st, minSize, maxNum).overlapping ==> o in all
  {
    if cs != [] {
      var st' := FirstStep(st, cs[0], minSize);
      assert cs[0] in cs;
      assert forall d :: d in cs[1..] ==> d in cs;
      if !(|st'.groups| > |st.groups| && CapReached(st'.groups, maxNum)) {
        FirstPassOverlapping(all, cs[1..], st', minSize, maxNum);
      }
    }
  }
}
