/**
 * The directed "u chose v" graph of one survey round and the queries the
 * engine makes of it (a value: once built, no component changes it).
 */
module DiGraphs {

  /** Participants are identified by their ID number. */
  type NodeId = int

  datatype DiGraph = DiGraph(nodes: set<NodeId>, edges: set<(NodeId, NodeId)>) {

    /** Every edge joins two nodes of the graph. */
    ghost predicate Valid() {
      forall u, v :: (u, v) in edges ==> u in nodes && v in nodes
    }

    predicate HasEdge(u: NodeId, v: NodeId) {
      (u, v) in edges
    }

    /** The undirected view: an edge in either direction connects u and v. */
    predicate Adjacent(u: NodeId, v: NodeId) {
      HasEdge(u, v) || HasEdge(v, u)
    }

    function OutNeighbours(u: NodeId): set<NodeId> {
      set e | e in edges && e.0 == u :: e.1
    }

    function InNeighbours(v: NodeId): set<NodeId> {
      set e | e in edges && e.1 == v :: e.0
    }

    /** `len(g.in_edges(v))`. */
    function InDegree(v: NodeId): nat {
      |InNeighbours(v)|
    }

    /** `len(g.out_edges(u))`. */
    function OutDegree(u: NodeId): nat {
      |OutNeighbours(u)|
    }
  }

  /** The members of a list, as a set. */
  function Members<T>(s: seq<T>): set<T> {
    set x | x in s
  }

  lemma SubsetCardinality<T>(a: set<T>, b: set<T>)
    requires a <= b
    ensures |a| <= |b|
  {
    assert b == a + (b - a);
  }

  /** No entry of the list occurs twice. */
  predicate Distinct<T(==)>(s: seq<T>) {
    forall i, j :: 0 <= i < j < |s| ==> s[i] != s[j]
  }

  /** `c` is a clique of the undirected view of `g`: distinct nodes, pairwise connected. */
  ghost predicate IsClique(g: DiGraph, c: seq<NodeId>) {
    && Distinct(c)
    && (forall x :: x in c ==> x in g.nodes)
    && (forall x, y :: x in c && y in c && x != y ==> g.Adjacent(x, y))
  }

  lemma {:induction false} DistinctCounts(s: seq<NodeId>)
    requires Distinct(s)
    ensures forall x :: multiset(s)[x] <= 1
  {
    if s != [] {
      assert s == [s[0]] + s[1..];
      assert Distinct(s[1..]) by {
        forall i, j | 0 <= i < j < |s[1..]| ensures s[1..][i] != s[1..][j] {
          assert s[1..][i] == s[i + 1] && s[1..][j] == s[j + 1];
        }
      }
      DistinctCounts(s[1..]);
      assert forall j :: 0 <= j < |s[1..]| ==> s[1..][j] == s[j + 1] != s[0];
      assert s[0] !in multiset(s[1..]);
    }
  }

  /** Reordering a list of distinct nodes keeps it distinct. */
  lemma DistinctPermutation(a: seq<NodeId>, b: seq<NodeId>)
    requires multiset(a) == multiset(b) && Distinct(a)
    ensures Distinct(b)
  {
    DistinctCounts(a);
    forall i, j | 0 <= i < j < |b| ensures b[i] != b[j] {
      assert b == b[..j] + b[j..];
      assert b[i] in b[..j] && b[j] in b[j..] by {
        assert b[..j][i] == b[i] && b[j..][0] == b[j];
      }
      assert multiset(b)[b[i]] == multiset(b[..j])[b[i]] + multiset(b[j..])[b[i]];
    }
  }

  /** A reordering of a clique is a clique. */
  lemma CliquePermutation(g: DiGraph, a: seq<NodeId>, b: seq<NodeId>)
    requires IsClique(g, a) && multiset(a) == multiset(b)
    ensures IsClique(g, b)
    ensures Members(a) == Members(b)
  {
    DistinctPermutation(a, b);
    assert forall x :: x in a <==> x in multiset(a);
    assert forall x :: x in b <==> x in multiset(b);
  }
}
