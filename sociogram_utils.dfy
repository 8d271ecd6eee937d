/**
 * `symmetrize_matrix`: turns the directed choice matrix of a class into a
 * symmetric closeness score. Direct choices weigh 10, two-step paths (and, at
 * degree 3, three-step paths) are added in place, the matrix is added to its
 * transpose and the diagonal is cleared.
 */
module MatrixSymmetry {

  /** A matrix as its rows. */
  type Mat = seq<seq<int>>

  /** m is an n-by-n matrix. */
  predicate Square(m: Mat, n: nat) {
    |m| == n && forall i :: 0 <= i < n ==> |m[i]| == n
  }

  /** The entry at (i, j), 0 outside the matrix. */
  function At(m: Mat, i: int, j: int): int {
    if 0 <= i < |m| && 0 <= j < |m[i]| then m[i][j] else 0
  }

  /** The n-by-n matrix whose entries are given by f. */
  function Build(n: nat, f: (int, int) -> int): (r: Mat)
    ensures Square(r, n) && forall i, j :: 0 <= i < n && 0 <= j < n ==> r[i][j] == f(i, j)
  {
    seq(n, i => seq(n, j => f(i, j)))
  }

  /** `k * m`. */
  function Scale(k: int, m: Mat): (r: Mat)
    requires Square(m, |m|)
    ensures Square(r, |m|)
  {
    Build(|m|, (i, j) => k * At(m, i, j))
  }

  /** `a + b`, entry by entry. */
  function Add(a: Mat, b: Mat): (r: Mat)
    requires Square(a, |a|) && Square(b, |a|)
    ensures Square(r, |a|)
  {
    Build(|a|, (i, j) => At(a, i, j) + At(b, i, j))
  }

  /** `m.T`. */
  function Transpose(m: Mat): (r: Mat)
    requires Square(m, |m|)
    ensures Square(r, |m|)
  {
    Build(|m|, (i, j) => At(m, j, i))
  }

  /** The first k terms of row i of a times column j of b. */
  function Dot(a: Mat, b: Mat, i: int, j: int, k: nat): int {
    if k == 0 then 0 else Dot(a, b, i, j, k - 1) + At(a, i, k - 1) * At(b, k - 1, j)
  }

  /** `a @ b`. */
  function Mul(a: Mat, b: Mat): (r: Mat)
    requires Square(a, |a|) && Square(b, |a|)
    ensures Square(r, |a|)
  {
    Build(|a|, (i, j) => Dot(a, b, i, j, |a|))
  }

  /** The matrix with its diagonal set to 0. */
  function ZeroDiag(m: Mat): (r: Mat)
    requires Square(m, |m|)
    ensures Square(r, |m|)
  {
    Build(|m|, (i, j) => if i == j then 0 else At(m, i, j))
  }

  /** `A += A@A + A@A.T`. */
  function TwoStep(g: Mat): (r: Mat)
    requires Square(g, |g|)
    ensures Square(r, |g|)
  {
    Add(g, Add(Mul(g, g), Mul(g, Transpose(g))))
  }

  /** `A += A@A@A + A@A@A.T + A@A.T@A + A.T@A@A`, numpy's `@` grouping to the left. */
  function ThreeStep(g: Mat): (r: Mat)
    requires Square(g, |g|)
    ensures Square(r, |g|)
  {
    var t := Transpose(g);
    Add(g, Add(Add(Mul(Mul(g, g), g), Mul(Mul(g, g), t)), Add(Mul(Mul(g, t), g), Mul(Mul(t, g), g))))
  }

  /** The matrix after the `+=` updates, before it is added to its transpose. */
  function Raised(a: Mat, degree: int): (r: Mat)
    requires Square(a, |a|)
    ensures Square(r, |a|)
  {
    var b := Scale(10, a);
    var c := if degree >= 2 then TwoStep(b) else b;
    if degree >= 3 then ThreeStep(c) else c
  }

  /** What `symmetrize_matrix(A, degree)` returns. */
  function Symmetrized(a: Mat, degree: int): (r: Mat)
    requires Square(a, |a|)
    ensures Square(r, |a|)
  {
    var d := Raised(a, degree);
    ZeroDiag(Add(d, Transpose(d)))
  }

  /** The result is symmetric. */
  lemma SymmetrizedSymmetric(a: Mat, degree: int)
    requires Square(a, |a|)
    ensures forall i, j :: 0 <= i < |a| && 0 <= j < |a| ==>
      Symmetrized(a, degree)[i][j] == Symmetrized(a, degree)[j][i]
  {
    var d := Raised(a, degree);
    var s := Add(d, Transpose(d));
    forall i, j | 0 <= i < |a| && 0 <= j < |a|
      ensures s[i][j] == s[j][i]
    {
      assert s[i][j] == d[i][j] + d[j][i];
      assert s[j][i] == d[j][i] + d[i][j];
    }
  }

  /** Every diagonal entry of the result is 0. */
  lemma SymmetrizedZeroDiagonal(a: Mat, degree: int)
    requires Square(a, |a|)
    ensures forall i :: 0 <= i < |a| ==> Symmetrized(a, degree)[i][i] == 0
  {
  }

  /** Below degree 2 only the direct choices count: 10 for each direction of a pair. */
  lemma SymmetrizedLowDegree(a: Mat, degree: int)
    requires Square(a, |a|) && degree < 2
    ensures forall i, j :: 0 <= i < |a| && 0 <= j < |a| && i != j ==>
      Symmetrized(a, degree)[i][j] == 10 * a[i][j] + 10 * a[j][i]
  {
    var d := Raised(a, degree);
    assert d == Scale(10, a);
    forall i, j | 0 <= i < |a| && 0 <= j < |a| && i != j
      ensures Symmetrized(a, degree)[i][j] == 10 * a[i][j] + 10 * a[j][i]
    {
      assert Transpose(d)[i][j] == d[j][i];
    }
  }

  /** No negative entry. */
  predicate NonNegative(m: Mat) {
    forall i, j :: 0 <= i < |m| && 0 <= j < |m[i]| ==> m[i][j] >= 0
  }

  lemma {:induction false} DotNonNegative(a: Mat, b: Mat, i: int, j: int, k: nat)
    requires NonNegative(a) && NonNegative(b)
    ensures Dot(a, b, i, j, k) >= 0
  {
    if k > 0 {
      DotNonNegative(a, b, i, j, k - 1);
      var x, y := At(a, i, k - 1), At(b, k - 1, j);
      assert x >= 0 && y >= 0;
      assert x * y >= 0;
    }
  }

  lemma MulNonNegative(a: Mat, b: Mat)
    requires Square(a, |a|) && Square(b, |a|) && NonNegative(a) && NonNegative(b)
    ensures NonNegative(Mul(a, b))
  {
    forall i, j | 0 <= i < |a| && 0 <= j < |a|
      ensures Mul(a, b)[i][j] >= 0
    {
      DotNonNegative(a, b, i, j, |a|);
    }
  }

  lemma AddNonNegative(a: Mat, b: Mat)
    requires Square(a, |a|) && Square(b, |a|) && NonNegative(a) && NonNegative(b)
    ensures NonNegative(Add(a, b))
  {
  }

  lemma TransposeNonNegative(a: Mat)
    requires Square(a, |a|) && NonNegative(a)
    ensures NonNegative(Transpose(a))
  {
  }

  lemma RaisedNonNegative(a: Mat, degree: int)
    requires Square(a, |a|) && NonNegative(a)
    ensures NonNegative(Raised(a, degree))
  {
    var b := Scale(10, a);
    var c := if degree >= 2 then TwoStep(b) else b;
    if degree >= 2 {
      TransposeNonNegative(b);
      MulNonNegative(b, b);
      MulNonNegative(b, Transpose(b));
      AddNonNegative(Mul(b, b), Mul(b, Transpose(b)));
      AddNonNegative(b, Add(Mul(b, b), Mul(b, Transpose(b))));
    }
    if degree >= 3 {
      var t := Transpose(c);
      TransposeNonNegative(c);
      MulNonNegative(c, c);
      MulNonNegative(c, t);
      MulNonNegative(t, c);
      MulNonNegative(Mul(c, c), c);
      MulNonNegative(Mul(c, c), t);
      MulNonNegative(Mul(c, t), c);
      MulNonNegative(Mul(t, c), c);
      AddNonNegative(Mul(Mul(c, c), c), Mul(Mul(c, c), t));
      AddNonNegative(Mul(Mul(c, t), c), Mul(Mul(t, c), c));
      AddNonNegative(Add(Mul(Mul(c, c), c), Mul(Mul(c, c), t)), Add(Mul(Mul(c, t), c), Mul(Mul(t, c), c)));
      AddNonNegative(c, Add(Add(Mul(Mul(c, c), c), Mul(Mul(c, c), t)), Add(Mul(Mul(c, t), c), Mul(Mul(t, c), c))));
    }
  }

  /** A choice matrix without negative entries gives scores without negative entries. */
  lemma SymmetrizedNonNegative(a: Mat, degree: int)
    requires Square(a, |a|) && NonNegative(a)
    ensures NonNegative(Symmetrized(a, degree))
  {
    var d := Raised(a, degree);
    RaisedNonNegative(a, degree);
    TransposeNonNegative(d);
    AddNonNegative(d, Transpose(d));
  }

  /** The contents of an array, row by row. */
  function Grid(m: array2<int>): (r: Mat)
    reads m
    ensures |r| == m.Length0 && forall i :: 0 <= i < m.Length0 ==> |r[i]| == m.Length1
    ensures forall i, j :: 0 <= i < m.Length0 && 0 <= j < m.Length1 ==> r[i][j] == m[i, j]
  {
    seq(m.Length0, i reads m => seq(m.Length1, j reads m => if 0 <= i < m.Length0 && 0 <= j < m.Length1 then m[i, j] else 0))
  }

  /** A new array holding the square matrix g. */
  method FromGrid(g: Mat) returns (m: array2<int>)
    requires Square(g, |g|)
    ensures fresh(m) && m.Length0 == |g| == m.Length1 && Grid(m) == g
  {
    m := new int[|g|, |g|]((i, j) => At(g, i, j));
    assert Grid(m) == g by {
      forall i | 0 <= i < |g| ensures Grid(m)[i] == g[i] {
      }
    }
  }

  /** numpy's in-place `A += d`: every entry grows by the entry of d. */
  method AddInPlace(m: array2<int>, d: Mat)
    requires m.Length0 == m.Length1 && Square(d, m.Length0)
    modifies m
    ensures Grid(m) == Add(old(Grid(m)), d)
  {
    ghost var before := Grid(m);
    forall i, j | 0 <= i < m.Length0 && 0 <= j < m.Length1 {
      m[i, j] := m[i, j] + d[i][j];
    }
    assert forall i, j :: 0 <= i < m.Length0 && 0 <= j < m.Length1 ==> m[i, j] == before[i][j] + d[i][j];
    SameEntries(Grid(m), Add(before, d), m.Length0);
  }

  /** Two n-by-n matrices with the same entries are equal. */
  lemma SameEntries(x: Mat, y: Mat, n: nat)
    requires Square(x, n) && Square(y, n)
    requires forall i, j :: 0 <= i < n && 0 <= j < n ==> x[i][j] == y[i][j]
    ensures x == y
  {
    forall i | 0 <= i < n ensures x[i] == y[i] {
    }
  }

  /** The loop that clears the diagonal. */
  method ZeroDiagonal(m: array2<int>)
    requires m.Length0 == m.Length1
    modifies m
    ensures Grid(m) == ZeroDiag(old(Grid(m)))
  {
    ghost var before := Grid(m);
    var n := m.Length0;
    for i := 0 to n
      invariant forall r, c :: 0 <= r < n && 0 <= c < n ==>
        m[r, c] == (if r == c && r < i then 0 else before[r][c])
    {
      m[i, i] := 0;
    }
    assert Grid(m) == ZeroDiag(before) by {
      forall r | 0 <= r < n ensures Grid(m)[r] == ZeroDiag(before)[r] {
      }
    }
  }

  /**
   * `symmetrize_matrix`: the caller's array is left as it was (`A = 10*A`
   * makes a new one before the `+=` updates), and the returned array holds
   * `Symmetrized` of it.
   */
  method SymmetrizeMatrix(a: array2<int>, degree: int) returns (r: array2<int>)
    requires a.Length0 == a.Length1
    ensures fresh(r) && Grid(r) == Symmetrized(Grid(a), degree)
  {
    ghost var a0 := Grid(a);
    var m := FromGrid(Scale(10, Grid(a)));
    ghost var c := if degree >= 2 then TwoStep(Scale(10, a0)) else Scale(10, a0);
    if degree >= 2 {
      var g := Grid(m);
      AddInPlace(m, Add(Mul(g, g), Mul(g, Transpose(g))));
      assert Grid(m) == TwoStep(g);
    }
    assert Grid(m) == c;
    if degree >= 3 {
      var g := Grid(m);
      var t := Transpose(g);
      AddInPlace(m, Add(Add(Mul(Mul(g, g), g), Mul(Mul(g, g), t)), Add(Mul(Mul(g, t), g), Mul(Mul(t, g), g))));
      assert Grid(m) == ThreeStep(g);
    }
    assert Grid(m) == Raised(a0, degree);
    var g := Grid(m);
    r := FromGrid(Add(g, Transpose(g)));
    ZeroDiagonal(r);
    assert Grid(r) == Symmetrized(a0, degree);
    assert Grid(a) == a0;
  }
}
