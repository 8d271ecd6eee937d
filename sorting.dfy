/**
 * Python's `sorted` (a stable sort) over a total preorder, and the orders the
 * grouping engine sorts by: integers, and cliques by (length, member list).
 */
module Sorting {

  /** `le` is total and transitive: what a sort key comparison provides. */
  ghost predicate TotalPreorder<T(!new)>(le: (T, T) -> bool) {
    && (forall a, b :: le(a, b) || le(b, a))
    && (forall a, b, c :: le(a, b) && le(b, c) ==> le(a, c))
  }

  /** `le` identifies no two distinct values, so a sorted order is unique. */
  ghost predicate Antisymmetric<T(!new)>(le: (T, T) -> bool) {
    forall a, b :: le(a, b) && le(b, a) ==> a == b
  }

  predicate SortedBy<T>(s: seq<T>, le: (T, T) -> bool) {
    forall i, j :: 0 <= i < j < |s| ==> le(s[i], s[j])
  }

  /** Inserts `x` after every element of the sorted `s` that is `le` it. */
  function Insert<T>(x: T, s: seq<T>, le: (T, T) -> bool): (r: seq<T>)
    ensures multiset(r) == multiset(s) + multiset{x}
    ensures |r| == |s| + 1
  {
    if s == [] then [x]
    else if le(s[0], x) then
      assert s == [s[0]] + s[1..];
      [s[0]] + Insert(x, s[1..], le)
    else
      [x] + s
  }

  lemma {:induction false} InsertSorted<T(!new)>(x: T, s: seq<T>, le: (T, T) -> bool)
    requires TotalPreorder(le) && SortedBy(s, le)
    ensures SortedBy(Insert(x, s, le), le)
  {
    if s == [] {
    } else if le(s[0], x) {
      var rest := Insert(x, s[1..], le);
      InsertSorted(x, s[1..], le);
      forall k | 0 <= k < |rest| ensures le(s[0], rest[k]) {
        assert rest[k] in multiset(rest);
        if rest[k] != x {
          assert rest[k] in multiset(s[1..]);
          var j :| 0 <= j < |s[1..]| && s[1..][j] == rest[k];
          assert s[j + 1] == rest[k];
        }
      }
      assert Insert(x, s, le) == [s[0]] + rest;
    } else {
      assert le(x, s[0]);
      forall k | 0 <= k < |s| ensures le(x, s[k]) {
        assert k == 0 || le(s[0], s[k]);
      }
    }
  }

  /** Stable insertion sort: the model of Python's `sorted(s, key=...)`. */
  function Sort<T(!new)>(s: seq<T>, le: (T, T) -> bool): (r: seq<T>)
    requires TotalPreorder(le)
    ensures |r| == |s|
    ensures SortedBy(r, le)
  {
    if s == [] then []
    else
      var r := Insert(s[|s| - 1], Sort(s[..|s| - 1], le), le);
      InsertSorted(s[|s| - 1], Sort(s[..|s| - 1], le), le);
      r
  }

  /** `Sort` rearranges its input: the result holds the same elements, as often. */
  lemma {:induction false} SortPermutes<T(!new)>(s: seq<T>, le: (T, T) -> bool)
    requires TotalPreorder(le)
    ensures multiset(Sort(s, le)) == multiset(s)
  {
    if s != [] {
      SortPermutes(s[..|s| - 1], le);
      assert s == s[..|s| - 1] + [s[|s| - 1]];
    }
  }

  /** The elements of `s` that `le` cannot tell apart from `e`, in order. */
  function Equivalents<T>(s: seq<T>, e: T, le: (T, T) -> bool): seq<T> {
    if s == [] then []
    else (if le(s[0], e) && le(e, s[0]) then [s[0]] else []) + Equivalents(s[1..], e, le)
  }

  lemma {:induction false} EquivalentsAppend<T>(a: seq<T>, b: seq<T>, e: T, le: (T, T) -> bool)
    ensures Equivalents(a + b, e, le) == Equivalents(a, e, le) + Equivalents(b, e, le)
  {
    if a != [] {
      assert (a + b)[1..] == a[1..] + b;
      assert (a + b)[0] == a[0];
      EquivalentsAppend(a[1..], b, e, le);
    } else {
      assert a + b == b;
    }
  }

  lemma {:induction false} InsertEquivalents<T(!new)>(x: T, s: seq<T>, e: T, le: (T, T) -> bool)
    requires TotalPreorder(le) && SortedBy(s, le)
    ensures Equivalents(Insert(x, s, le), e, le)
         == Equivalents(s, e, le) + Equivalents([x], e, le)
  {
    if s == [] {
      assert Insert(x, s, le) == [x] + s;
      assert Equivalents(s, e, le) == [];
    } else if le(s[0], x) {
      SortedTail(s, le);
      InsertEquivalents(x, s[1..], e, le);
      InsertBehind(x, s, e, le);
    } else {
      assert Insert(x, s, le) == [x] + s;
      InsertFront(x, s, e, le);
    }
  }

  lemma SortedTail<T>(s: seq<T>, le: (T, T) -> bool)
    requires SortedBy(s, le) && s != []
    ensures SortedBy(s[1..], le)
  {
    var rest := s[1..];
    forall i, j | 0 <= i < j < |rest| ensures le(rest[i], rest[j]) {
      assert rest[i] == s[i + 1] && rest[j] == s[j + 1];
    }
  }

  /** Inserting behind the head, given the claim for the tail. */
  lemma InsertBehind<T>(x: T, s: seq<T>, e: T, le: (T, T) -> bool)
    requires s != [] && le(s[0], x)
    requires Equivalents(Insert(x, s[1..], le), e, le) == Equivalents(s[1..], e, le) + Equivalents([x], e, le)
    ensures Equivalents(Insert(x, s, le), e, le) == Equivalents(s, e, le) + Equivalents([x], e, le)
  {
    var rest := s[1..];
    var tail := Insert(x, rest, le);
    assert Insert(x, s, le) == [s[0]] + tail;
    EquivalentsAppend([s[0]], tail, e, le);
    EquivalentsAppend([s[0]], rest, e, le);
    assert s == [s[0]] + rest;
  }

  /** Inserting in front of a sorted list whose head is above x. */
  lemma InsertFront<T(!new)>(x: T, s: seq<T>, e: T, le: (T, T) -> bool)
    requires TotalPreorder(le) && SortedBy(s, le) && s != [] && !le(s[0], x)
    ensures Equivalents([x] + s, e, le) == Equivalents(s, e, le) + Equivalents([x], e, le)
  {
    EquivalentsAppend([x], s, e, le);
    if le(x, e) && le(e, x) {
      // every element of s is strictly above x, so none is equivalent to e
      forall k | 0 <= k < |s| ensures !le(s[k], x) {
        assert k == 0 || le(s[0], s[k]);
      }
      NoneEquivalent(x, s, e, le);
    } else {
      assert Equivalents([x], e, le) == [] by {
        assert [x][1..] == [];
      }
    }
  }

  lemma {:induction false} NoneEquivalent<T(!new)>(x: T, s: seq<T>, e: T, le: (T, T) -> bool)
    requires TotalPreorder(le)
    requires forall k :: 0 <= k < |s| ==> !le(s[k], x)
    requires le(e, x)
    ensures Equivalents(s, e, le) == []
  {
    if s != [] {
      assert !le(s[0], e);
      NoneEquivalent(x, s[1..], e, le);
    }
  }

  /** `Sort` is stable: equivalent elements keep their input order. */
  lemma {:induction false} SortStable<T(!new)>(s: seq<T>, e: T, le: (T, T) -> bool)
    requires TotalPreorder(le)
    ensures Equivalents(Sort(s, le), e, le) == Equivalents(s, e, le)
  {
    if s != [] {
      var init, x := s[..|s| - 1], s[|s| - 1];
      var sorted := Sort(init, le);
      calc {
        Equivalents(Sort(s, le), e, le);
        Equivalents(Insert(x, sorted, le), e, le);
        { InsertEquivalents(x, sorted, e, le); }
        Equivalents(sorted, e, le) + Equivalents([x], e, le);
        { SortStable(init, e, le); }
        Equivalents(init, e, le) + Equivalents([x], e, le);
        { EquivalentsAppend(init, [x], e, le); }
        Equivalents(init + [x], e, le);
        { assert init + [x] == s; }
        Equivalents(s, e, le);
      }
    }
  }

  /** The equivalents of `e` in a prefix are a prefix of its equivalents in the whole list. */
  lemma PrefixEquivalents<T>(s: seq<T>, top: seq<T>, e: T, le: (T, T) -> bool)
    requires top <= s
    ensures Equivalents(top, e, le) <= Equivalents(s, e, le)
  {
    assert s == top + s[|top|..];
    EquivalentsAppend(top, s[|top|..], e, le);
  }

  /** Under an antisymmetric order a sorted permutation is unique. */
  lemma {:induction false} SortedUnique<T(!new)>(a: seq<T>, b: seq<T>, le: (T, T) -> bool)
    requires Antisymmetric(le)
    requires SortedBy(a, le) && SortedBy(b, le) && multiset(a) == multiset(b)
    ensures a == b
  {
    if a == [] {
      assert |b| == |multiset(b)| == 0;
    } else {
      SameHead(a, b, le);
      TailsPermuted(a, b);
      SortedTail(a, le);
      SortedTail(b, le);
      SortedUnique(a[1..], b[1..], le);
      SameHeadAndTail(a, b);
    }
  }

  lemma TailsPermuted<T>(a: seq<T>, b: seq<T>)
    requires multiset(a) == multiset(b) && a != [] && b != [] && a[0] == b[0]
    ensures multiset(a[1..]) == multiset(b[1..])
  {
    RemoveMatching(a, b, 0);
    assert b[..0] + b[1..] == b[1..];
  }

  lemma SameHeadAndTail<T>(a: seq<T>, b: seq<T>)
    requires a != [] && b != [] && a[0] == b[0] && a[1..] == b[1..]
    ensures a == b
  {
    assert a == [a[0]] + a[1..] && b == [b[0]] + b[1..];
  }

  /** Two sorted permutations of a non-empty list start with the same element. */
  lemma SameHead<T(!new)>(a: seq<T>, b: seq<T>, le: (T, T) -> bool)
    requires Antisymmetric(le)
    requires SortedBy(a, le) && SortedBy(b, le) && multiset(a) == multiset(b) && a != []
    ensures b != [] && a[0] == b[0]
  {
    assert |b| == |multiset(b)| == |a|;
    var k := IndexOf(b, a[0]);
    var m := IndexOf(a, b[0]);
    assert k == 0 || le(b[0], b[k]);
    assert m == 0 || le(a[0], a[m]);
  }

  /** Sorting ignores the order of its input when the order is antisymmetric. */
  lemma SortIgnoresInputOrder<T(!new)>(a: seq<T>, b: seq<T>, le: (T, T) -> bool)
    requires TotalPreorder(le) && Antisymmetric(le) && multiset(a) == multiset(b)
    ensures Sort(a, le) == Sort(b, le)
  {
    SortPermutes(a, le);
    SortPermutes(b, le);
    SortedUnique(Sort(a, le), Sort(b, le), le);
  }

  // ---------------------------------------------------------------------
  // List comprehensions

  /** Growing a prefix of `b` by one element, behind `a`. */
  lemma AppendTake<T>(a: seq<T>, b: seq<T>, j: nat)
    requires j < |b|
    ensures a + b[..j + 1] == (a + b[..j]) + [b[j]]
  {
    assert b[..j + 1] == b[..j] + [b[j]];
  }

  /** `[f(x) for x in s]`. */
  function MapSeq<A, B>(f: A -> B, s: seq<A>): (r: seq<B>)
    ensures |r| == |s|
    ensures forall k :: 0 <= k < |s| ==> r[k] == f(s[k])
  {
    if s == [] then [] else [f(s[0])] + MapSeq(f, s[1..])
  }

  lemma InMapSeq<A, B>(f: A -> B, s: seq<A>, y: B)
    requires y in multiset(MapSeq(f, s))
    ensures exists m :: 0 <= m < |s| && y == f(s[m])
  {
    var r := MapSeq(f, s);
    var m :| 0 <= m < |r| && r[m] == y;
  }

  lemma {:induction false} MapSeqAppend<A, B>(f: A -> B, a: seq<A>, b: seq<A>)
    ensures MapSeq(f, a + b) == MapSeq(f, a) + MapSeq(f, b)
  {
    if a != [] {
      assert (a + b)[1..] == a[1..] + b;
      MapSeqAppend(f, a[1..], b);
    } else {
      assert a + b == b;
    }
  }

  lemma MapSeqRemoveAt<A, B>(f: A -> B, b: seq<A>, k: nat)
    requires k < |b|
    ensures multiset(MapSeq(f, b)) == multiset(MapSeq(f, b[..k] + b[k + 1..])) + multiset{f(b[k])}
  {
    var x, y := b[..k], b[k + 1..];
    assert b == x + ([b[k]] + y);
    MapSeqAppend(f, x, [b[k]] + y);
    MapSeqAppend(f, [b[k]], y);
    MapSeqAppend(f, x, y);
    var mx, my := MapSeq(f, x), MapSeq(f, y);
    assert MapSeq(f, [b[k]]) == [f(b[k])];
    assert MapSeq(f, b) == mx + ([f(b[k])] + my);
    assert multiset(MapSeq(f, b)) == multiset(mx) + multiset{f(b[k])} + multiset(my);
  }

  /** Taking the same element out of two permutations leaves permutations. */
  lemma RemoveMatching<A>(a: seq<A>, b: seq<A>, k: nat)
    requires multiset(a) == multiset(b) && 0 < |a| && k < |b| && b[k] == a[0]
    ensures multiset(a[1..]) == multiset(b[..k] + b[k + 1..])
  {
    var x, y := b[..k], b[k + 1..];
    assert a == [a[0]] + a[1..];
    assert b == x + [b[k]] + y;
    assert multiset(a) == multiset{a[0]} + multiset(a[1..]);
    assert multiset(b) == multiset(x) + multiset{b[k]} + multiset(y);
    assert multiset(x + y) == multiset(x) + multiset(y);
    assert multiset(a[1..]) == multiset(a) - multiset{a[0]};
    assert multiset(x) + multiset(y) == multiset(b) - multiset{b[k]};
  }

  /** Mapping commutes with reordering: a permutation maps to a permutation. */
  lemma {:induction false} MapSeqPermutation<A, B>(f: A -> B, a: seq<A>, b: seq<A>)
    requires multiset(a) == multiset(b)
    ensures multiset(MapSeq(f, a)) == multiset(MapSeq(f, b))
  {
    if a == [] {
      assert |b| == |multiset(b)| == 0;
    } else {
      var k := IndexOf(b, a[0]);
      var ra, rb := a[1..], b[..k] + b[k + 1..];
      RemoveMatching(a, b, k);
      MapSeqPermutation(f, ra, rb);
      MapSeqRemoveAt(f, b, k);
      MapSeqRemoveAt(f, a, 0);
      assert a[..0] + a[1..] == ra;
    }
  }

  /** A position of an element of the list. */
  lemma IndexOf<A>(b: seq<A>, x: A) returns (k: nat)
    requires x in multiset(b)
    ensures k < |b| && b[k] == x
  {
    assert x in b;
    k :| 0 <= k < |b| && b[k] == x;
  }

  // ---------------------------------------------------------------------
  // The orders used by the engine

  function IntLe(): (le: (int, int) -> bool)
    ensures TotalPreorder(le) && Antisymmetric(le)
  {
    (a: int, b: int) => a <= b
  }

  /** Python's comparison of two lists of integers. */
  predicate LexLe(a: seq<int>, b: seq<int>) {
    |a| == 0 || (|b| > 0 && (a[0] < b[0] || (a[0] == b[0] && LexLe(a[1..], b[1..]))))
  }

  lemma {:induction false} LexLeTotal(a: seq<int>, b: seq<int>)
    ensures LexLe(a, b) || LexLe(b, a)
  {
    if |a| > 0 && |b| > 0 && a[0] == b[0] {
      LexLeTotal(a[1..], b[1..]);
    }
  }

  lemma {:induction false} LexLeTransitive(a: seq<int>, b: seq<int>, c: seq<int>)
    requires LexLe(a, b) && LexLe(b, c)
    ensures LexLe(a, c)
  {
    if |a| > 0 && a[0] == b[0] && b[0] == c[0] {
      LexLeTransitive(a[1..], b[1..], c[1..]);
    }
  }

  lemma {:induction false} LexLeAntisymmetric(a: seq<int>, b: seq<int>)
    requires LexLe(a, b) && LexLe(b, a)
    ensures a == b
  {
    if |a| > 0 {
      LexLeAntisymmetric(a[1..], b[1..]);
      assert a == [a[0]] + a[1..] && b == [b[0]] + b[1..];
    }
  }

  /** The key `(len(x), x)` of the clique sort: shorter first, then Python list order. */
  predicate CliqueLe(a: seq<int>, b: seq<int>) {
    |a| < |b| || (|a| == |b| && LexLe(a, b))
  }

  function CliqueOrder(): (le: (seq<int>, seq<int>) -> bool)
    ensures TotalPreorder(le) && Antisymmetric(le)
    ensures forall a, b :: le(a, b) == CliqueLe(a, b)
  {
    forall a, b ensures CliqueLe(a, b) || CliqueLe(b, a) {
      LexLeTotal(a, b);
    }
    forall a, b, c | CliqueLe(a, b) && CliqueLe(b, c) ensures CliqueLe(a, c) {
      if |a| == |b| == |c| {
        LexLeTransitive(a, b, c);
      }
    }
    forall a, b | CliqueLe(a, b) && CliqueLe(b, a) ensures a == b {
      LexLeAntisymmetric(a, b);
    }
    (a: seq<int>, b: seq<int>) => CliqueLe(a, b)
  }

  /** The key of line 45: `len`, with `reverse=True` (longest first). */
  function LongestFirst(): (le: (seq<int>, seq<int>) -> bool)
    ensures TotalPreorder(le)
    ensures forall a, b :: le(a, b) == (|a| >= |b|)
  {
    (a: seq<int>, b: seq<int>) => |a| >= |b|
  }
}
