/**
 * How often each number is chosen in the six choice columns, optionally
 * counting only the numbers of a subgroup, and the connectivity value of a
 * subgroup: its inner choices over the share of all choices into it that its
 * size would lead one to expect.
 */
module ChoiceCounts {
  import opened Outcomes
  import opened Columns
  import opened DiGraphs

  // ---------------------------------------------------------------------
  // get_count_dict

  /** `nodes_to_count`: None counts every cell, Some(list) only the numbers in the list. */
  predicate Counts(filter: Option<seq<int>>, v: int) {
    filter.None? || v in filter.value
  }

  /** The cells the loops count, in visiting order. */
  function Kept(cells: seq<int>, filter: Option<seq<int>>): (r: seq<int>)
    ensures |r| <= |cells|
  {
    if cells == [] then []
    else
      var front := Kept(cells[..|cells| - 1], filter);
      var v := cells[|cells| - 1];
      front + (if Counts(filter, v) then [v] else [])
  }

  /** Each kept cell is a cell the filter lets through. */
  lemma {:induction false} KeptMembers(cells: seq<int>, filter: Option<seq<int>>, v: int)
    requires v in Kept(cells, filter)
    ensures v in cells && Counts(filter, v)
  {
    var front := cells[..|cells| - 1];
    var x := cells[|cells| - 1];
    assert cells == front + [x];
    if v != x || !Counts(filter, x) {
      assert v in Kept(front, filter);
      KeptMembers(front, filter, v);
    }
  }

  lemma {:induction false} KeptAppend(a: seq<int>, b: seq<int>, filter: Option<seq<int>>)
    ensures Kept(a + b, filter) == Kept(a, filter) + Kept(b, filter)
    decreases |b|
  {
    if b == [] {
      assert a + b == a;
    } else {
      var b' := b[..|b| - 1];
      assert (a + b)[..|a + b| - 1] == a + b';
      KeptAppend(a, b', filter);
    }
  }

  /** The distinct values of a list in order of first appearance: the key order of a filled Python dict. */
  function FirstSeen(s: seq<int>): seq<int> {
    if s == [] then []
    else
      var front := FirstSeen(s[..|s| - 1]);
      var v := s[|s| - 1];
      if v in front then front else front + [v]
  }

  /** The keys are the distinct values of the list, each once. */
  lemma {:induction false} FirstSeenProps(s: seq<int>)
    ensures Distinct(FirstSeen(s))
    ensures forall v :: v in FirstSeen(s) <==> v in s
  {
    if s != [] {
      var front := s[..|s| - 1];
      var v := s[|s| - 1];
      FirstSeenProps(front);
      assert s == front + [v];
      var r := FirstSeen(s);
      forall x
        ensures x in r <==> x in s
      {
        assert x in s <==> x in front || x == v;
      }
    }
  }

  /** A dictionary `count_dict` (keys in insertion order) holds the counts of the cells seen so far. */
  ghost predicate Tallied(seen: seq<int>, keys: seq<int>, counts: map<int, int>) {
    && keys == FirstSeen(seen)
    && (forall v :: v in counts <==> v in keys)
    && (forall v :: v in counts ==> counts[v] == Occurs(seen, v))
  }

  lemma TallyStep(seen: seq<int>, keys: seq<int>, counts: map<int, int>, v: int)
    requires Tallied(seen, keys, counts)
    ensures v in counts ==> Tallied(seen + [v], keys, counts[v := counts[v] + 1])
    ensures v !in counts ==> Tallied(seen + [v], keys + [v], counts[v := 1])
  {
    assert (seen + [v])[..|seen|] == seen;
    FirstSeenProps(seen);
    OccursPositive(seen, v);
    forall x
      ensures Occurs(seen + [v], x) == Occurs(seen, x) + (if x == v then 1 else 0)
    {
      OccursAppend(seen, [v], x);
      assert [v][..0] == [];
    }
  }

  /** The inner loop over one column (lines 22-29). */
  method CountColumn(column: seq<int>, filter: Option<seq<int>>, ghost seen: seq<int>, keys0: seq<int>, counts0: map<int, int>)
    returns (keys: seq<int>, counts: map<int, int>)
    requires Tallied(seen, keys0, counts0)
    ensures Tallied(seen + Kept(column, filter), keys, counts)
  {
    keys, counts := keys0, counts0;
    var j := 0;
    assert column[..0] == [];
    assert seen + Kept([], filter) == seen;
    while j < |column|
      invariant 0 <= j <= |column|
      invariant Tallied(seen + Kept(column[..j], filter), keys, counts)
    {
      var node := column[j];
      ghost var done := seen + Kept(column[..j], filter);
      assert column[..j + 1][..j] == column[..j];
      assert Kept(column[..j + 1], filter) == Kept(column[..j], filter) + (if Counts(filter, node) then [node] else []);
      if filter.Some? && node !in filter.value {
        assert seen + Kept(column[..j + 1], filter) == done;
        j := j + 1;
        continue;
      }
      assert seen + Kept(column[..j + 1], filter) == done + [node];
      TallyStep(done, keys, counts, node);
      if node in counts {
        counts := counts[node := counts[node] + 1];
      } else {
        keys := keys + [node];
        counts := counts[node := 1];
      }
      j := j + 1;
    }
    assert column[..j] == column;
  }

  /**
   * `get_count_dict`: one key per counted value, in order of first appearance,
   * mapped to the number of counted cells holding it.
   */
  method GetCountDict(columns: seq<seq<int>>, filter: Option<seq<int>>) returns (keys: seq<int>, counts: map<int, int>)
    ensures keys == FirstSeen(Kept(Cells(columns), filter))
    ensures forall v :: v in counts <==> v in keys
    ensures forall v :: v in counts ==> counts[v] == Occurs(Kept(Cells(columns), filter), v)
  {
    keys, counts := [], map[];
    var c := 0;
    assert columns[..0] == [];
    while c < |columns|
      invariant 0 <= c <= |columns|
      invariant Tallied(Kept(Cells(columns[..c]), filter), keys, counts)
    {
      assert columns[..c + 1][..c] == columns[..c];
      KeptAppend(Cells(columns[..c]), columns[c], filter);
      keys, counts := CountColumn(columns[c], filter, Kept(Cells(columns[..c]), filter), keys, counts);
      c := c + 1;
    }
    assert columns[..c] == columns;
  }

  /** Every key counted comes from the filter and has at least one cell. */
  lemma CountedKeys(cells: seq<int>, filter: Option<seq<int>>, v: int)
    requires v in FirstSeen(Kept(cells, filter))
    ensures Occurs(Kept(cells, filter), v) >= 1
    ensures filter.Some? ==> v in filter.value
  {
    FirstSeenProps(Kept(cells, filter));
    KeptMembers(cells, filter, v);
    OccursPositive(Kept(cells, filter), v);
  }

  /** With a filter, the count of a number in it is its unfiltered count, and numbers outside it get none. */
  lemma {:induction false} FilteredCounts(cells: seq<int>, f: seq<int>, v: int)
    ensures v in f ==> Occurs(Kept(cells, Some(f)), v) == Occurs(Kept(cells, None), v)
    ensures v !in f ==> Occurs(Kept(cells, Some(f)), v) == 0
    ensures Occurs(Kept(cells, None), v) == Occurs(cells, v)
  {
    if cells != [] {
      var x := cells[|cells| - 1];
      var front := cells[..|cells| - 1];
      FilteredCounts(front, f, v);
      OccursAppend(Kept(front, Some(f)), if Counts(Some(f), x) then [x] else [], v);
      OccursPiece(Counts(Some(f), x), x, v);
      OccursAppend(Kept(front, None), if Counts(None, x) then [x] else [], v);
      OccursPiece(Counts(None, x), x, v);
    }
  }

  /** The cell one loop step adds, if any, counts `v` once when it holds `v`. */
  lemma OccursPiece(keep: bool, x: int, v: int)
    ensures Occurs(if keep then [x] else [], v) == if keep && x == v then 1 else 0
  {
    if keep {
      assert [x][..0] == [];
    }
  }

  /** `sum([d[k] for k in d.keys()])` for the dictionary of counts of s. */
  function SumCounts(keys: seq<int>, s: seq<int>): int {
    if keys == [] then 0 else SumCounts(keys[..|keys| - 1], s) + Occurs(s, keys[|keys| - 1])
  }

  lemma {:induction false} SumCountsStep(keys: seq<int>, s: seq<int>, x: int)
    ensures SumCounts(keys, s + [x]) == SumCounts(keys, s) + (if x in keys then 1 else 0) || !Distinct(keys)
  {
    if keys != [] {
      var front := keys[..|keys| - 1];
      var k := keys[|keys| - 1];
      if Distinct(keys) {
        assert Distinct(front);
        SumCountsStep(front, s, x);
        OccursAppend(s, [x], k);
        assert [x][..0] == [];
        assert keys == front + [k];
        assert x in keys <==> x in front || x == k;
        assert x == k ==> x !in front;
      }
    }
  }

  /** The counts of a dictionary filled from s add up to |s|: every counted cell is counted once. */
  lemma {:induction false} CountTotal(s: seq<int>)
    ensures SumCounts(FirstSeen(s), s) == |s|
  {
    if s != [] {
      var front := s[..|s| - 1];
      var x := s[|s| - 1];
      CountTotal(front);
      assert s == front + [x];
      FirstSeenProps(front);
      SumCountsStep(FirstSeen(front), front, x);
      if x !in FirstSeen(front) {
        var keys := FirstSeen(front) + [x];
        assert keys[..|keys| - 1] == FirstSeen(front);
        assert SumCounts(keys, s) == SumCounts(FirstSeen(front), s) + Occurs(s, x);
        OccursPositive(front, x);
        assert Occurs(front, x) == 0;
        OccursAppend(front, [x], x);
        assert [x][..0] == [];
      }
    }
  }

  // ---------------------------------------------------------------------
  // get_group_connection_value

  /** One sheet row: the cadet's number, the demographic columns, and the six choices. */
  datatype Row = Row(num: int, attrs: map<string, string>, choices: seq<int>)

  /** A sheet: its column titles and its rows; every row has a value under every title. */
  datatype Frame = Frame(header: set<string>, rows: seq<Row>)

  ghost predicate ValidFrame(f: Frame) {
    forall i, c :: 0 <= i < |f.rows| && c in f.header ==> c in f.rows[i].attrs
  }

  /** The choice columns `df[edge]` for the six choice titles. */
  function ChoiceColumns(rows: seq<Row>, width: nat): (r: seq<seq<int>>)
    requires forall i :: 0 <= i < |rows| ==> |rows[i].choices| == width
    ensures |r| == width && forall c :: 0 <= c < width ==> |r[c]| == |rows|
  {
    seq(width, c requires 0 <= c < width => seq(|rows|, i requires 0 <= i < |rows| => rows[i].choices[c]))
  }

  /** `df[df[category] == group_name]`, the rows in order. */
  function Subgroup(rows: seq<Row>, category: string, group: string): (r: seq<Row>)
    requires forall i :: 0 <= i < |rows| ==> category in rows[i].attrs
    ensures |r| <= |rows|
    ensures forall i :: 0 <= i < |r| ==> r[i] in rows && r[i].attrs[category] == group
  {
    if rows == [] then []
    else
      var front := Subgroup(rows[..|rows| - 1], category, group);
      var row := rows[|rows| - 1];
      assert forall x :: x in rows[..|rows| - 1] ==> x in rows;
      front + (if row.attrs[category] == group then [row] else [])
  }

  function Nums(rows: seq<Row>): (r: seq<int>)
    ensures |r| == |rows| && forall i :: 0 <= i < |rows| ==> r[i] == rows[i].num
  {
    seq(|rows|, i requires 0 <= i < |rows| => rows[i].num)
  }

  /** The choices out of the subgroup into it, and out of the whole sheet into it. */
  function InnerChoices(f: Frame, width: nat, category: string, group: string): seq<int>
    requires ValidFrame(f) && category in f.header
    requires forall i :: 0 <= i < |f.rows| ==> |f.rows[i].choices| == width
  {
    var sub := Subgroup(f.rows, category, group);
    Kept(Cells(ChoiceColumns(sub, width)), Some(FirstSeen(Nums(sub))))
  }

  function ChoicesInto(f: Frame, width: nat, category: string, group: string): seq<int>
    requires ValidFrame(f) && category in f.header
    requires forall i :: 0 <= i < |f.rows| ==> |f.rows[i].choices| == width
  {
    var sub := Subgroup(f.rows, category, group);
    Kept(Cells(ChoiceColumns(f.rows, width)), Some(FirstSeen(Nums(sub))))
  }

  /** A choice into the subgroup names one of its members, so neither the subgroup nor the sheet is empty. */
  lemma IntoNonEmpty(f: Frame, width: nat, category: string, group: string)
    requires ValidFrame(f) && category in f.header
    requires forall i :: 0 <= i < |f.rows| ==> |f.rows[i].choices| == width
    ensures |ChoicesInto(f, width, category, group)| > 0 ==> |Subgroup(f.rows, category, group)| > 0 && |f.rows| > 0
  {
    var sub := Subgroup(f.rows, category, group);
    var into := ChoicesInto(f, width, category, group);
    if |into| > 0 {
      KeptMembers(Cells(ChoiceColumns(f.rows, width)), Some(FirstSeen(Nums(sub))), into[0]);
      FirstSeenProps(Nums(sub));
      assert into[0] in Nums(sub);
    }
  }

  /** `num_all_connections * (subgroup_size / size)`. */
  function Expected(all: nat, sub: nat, size: nat): real
    requires size > 0
  {
    all as real * (sub as real / size as real)
  }

  /** `inner_connections / expected_inner_connections`. */
  function Ratio(inner: nat, all: nat, sub: nat, size: nat): real
    requires all > 0 && sub > 0 && size > 0
  {
    ExpectedZero(all, sub, size);
    inner as real / Expected(all, sub, size)
  }

  lemma ExpectedZero(all: nat, sub: nat, size: nat)
    requires size > 0
    ensures Expected(all, sub, size) == 0.0 <==> all == 0 || sub == 0
  {
    if all > 0 && sub > 0 {
      assert sub as real / size as real > 0.0;
    }
  }

  /**
   * `get_group_connection_value`: the subgroup's inner choices divided by the
   * choices into it scaled by its share of the sheet, counted in cells. A
   * missing category is a `KeyError`; it divides by zero exactly when no choice
   * goes into the subgroup (a subgroup with members is never empty, nor the sheet).
   */
  function ConnectionValue(f: Frame, width: nat, category: string, group: string): (r: Result<real>)
    requires ValidFrame(f)
    requires forall i :: 0 <= i < |f.rows| ==> |f.rows[i].choices| == width
    ensures category !in f.header ==> r == Err(KeyError)
    ensures category in f.header && |ChoicesInto(f, width, category, group)| == 0 ==> r == Err(ZeroDivisionError)
    ensures category in f.header && |ChoicesInto(f, width, category, group)| > 0 ==>
      var into := |ChoicesInto(f, width, category, group)|;
      var sub := |Subgroup(f.rows, category, group)|;
      && |f.rows| > 0 && sub > 0
      && r == Ok(Ratio(|InnerChoices(f, width, category, group)|, into, sub, |f.rows|))
  {
    if category !in f.header then Err(KeyError)
    else
      var size := |f.rows|;
      var sub := Subgroup(f.rows, category, group);
      var toGroup := ChoicesInto(f, width, category, group);
      var numAll := SumCounts(FirstSeen(toGroup), toGroup);
      CountTotal(toGroup);
      IntoNonEmpty(f, width, category, group);
      if size == 0 then Err(ZeroDivisionError)
      else
        ExpectedZero(numAll, |sub|, size);
        var expected := Expected(numAll, |sub|, size);
        var inner := InnerChoices(f, width, category, group);
        var numInner := SumCounts(FirstSeen(inner), inner);
        CountTotal(inner);
        if expected == 0.0 then Err(ZeroDivisionError)
        else Ok(Ratio(numInner, numAll, |sub|, size))
  }


  lemma RatioOfWhole(n: nat, size: nat)
    requires n > 0 && size > 0
    ensures Ratio(n, n, size, size) == 1.0
  {
    var x := size as real;
    assert x / x == 1.0;
    assert Expected(n, size, size) == n as real * 1.0;
  }

  lemma {:induction false} SubgroupAll(rows: seq<Row>, category: string, group: string)
    requires forall i :: 0 <= i < |rows| ==> category in rows[i].attrs && rows[i].attrs[category] == group
    ensures Subgroup(rows, category, group) == rows
  {
    if rows != [] {
      SubgroupAll(rows[..|rows| - 1], category, group);
      assert rows == rows[..|rows| - 1] + [rows[|rows| - 1]];
    }
  }

  /** A subgroup that is the whole sheet is exactly as connected as expected: the value is 1. */
  lemma WholeSheetIsOne(f: Frame, width: nat, category: string, group: string)
    requires ValidFrame(f) && category in f.header
    requires forall i :: 0 <= i < |f.rows| ==> |f.rows[i].choices| == width
    requires forall i :: 0 <= i < |f.rows| ==> f.rows[i].attrs[category] == group
    requires |ChoicesInto(f, width, category, group)| > 0
    ensures ConnectionValue(f, width, category, group) == Ok(1.0)
  {
    SubgroupAll(f.rows, category, group);
    IntoNonEmpty(f, width, category, group);
    var n := |ChoicesInto(f, width, category, group)|;
    var size := |f.rows|;
    assert InnerChoices(f, width, category, group) == ChoicesInto(f, width, category, group);
    RatioOfWhole(n, size);
  }
}
