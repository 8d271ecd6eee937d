/**
 * The choice columns of a survey sheet as the counting loops see them: each
 * column top to bottom, the columns left to right.
 */
module Columns {

  /** The cells of the columns, column after column, as the loops visit them. */
  function Cells(columns: seq<seq<int>>): seq<int> {
    if columns == [] then []
    else Cells(columns[..|columns| - 1]) + columns[|columns| - 1]
  }

  lemma {:induction false} CellsPrefix(columns: seq<seq<int>>, c: nat)
    requires c <= |columns|
    ensures Cells(columns) == Cells(columns[..c]) + Cells(columns[c..])
    decreases |columns|
  {
    if c == |columns| {
      assert columns[..c] == columns;
      assert columns[c..] == [];
    } else {
      var front := columns[..|columns| - 1];
      CellsPrefix(front, c);
      assert front[..c] == columns[..c];
      assert front[c..] == columns[c..|columns| - 1];
      assert columns[c..][..|columns[c..]| - 1] == front[c..];
    }
  }

  /** The number of cells holding v. */
  function Occurs(cells: seq<int>, v: int): (r: nat)
    ensures r <= |cells|
  {
    if cells == [] then 0
    else Occurs(cells[..|cells| - 1], v) + (if cells[|cells| - 1] == v then 1 else 0)
  }

  /** A value occurs a positive number of times exactly when it is in the list. */
  lemma {:induction false} OccursPositive(cells: seq<int>, v: int)
    ensures Occurs(cells, v) > 0 <==> v in cells
  {
    if cells != [] {
      var front := cells[..|cells| - 1];
      OccursPositive(front, v);
      assert cells == front + [cells[|cells| - 1]];
    }
  }

  lemma {:induction false} OccursAppend(a: seq<int>, b: seq<int>, v: int)
    ensures Occurs(a + b, v) == Occurs(a, v) + Occurs(b, v)
    decreases |b|
  {
    if b == [] {
      assert a + b == a;
    } else {
      var b' := b[..|b| - 1];
      assert (a + b)[..|a + b| - 1] == a + b';
      OccursAppend(a, b', v);
    }
  }
}
