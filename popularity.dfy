/**
 * Popularity over time: how often each cadet was chosen in each survey round,
 * the colour rules of the output table, and the summary lines written about
 * every cadet of the latest round.
 */
module Popularity {
  import opened Outcomes
  import opened Columns
  import TextHelpers
  import Sorting

  const LowThresh: int := 3
  const HighThresh: int := 10
  const DiffThresh: int := 5

  /**
   * One survey sheet: the full-name column, the own-number column (both in row
   * order) and the columns from the third on, each the list of chosen numbers
   * down the rows.
   */
  datatype Survey = Survey(names: seq<string>, numbers: seq<int>, choices: seq<seq<int>>)

  /** A data frame's columns are aligned: one number per name. */
  predicate WellFormed(t: Survey) {
    |t.numbers| == |t.names|
  }

  /** `len(data)`. */
  function Rows(t: Survey): nat {
    |t.names|
  }

  // ---------------------------------------------------------------------
  // count_connections

  /** numpy accepts an index j of an array of length n when -n <= j < n. */
  predicate ValidIndex(j: int, n: int) {
    -n <= j < n
  }

  /** The slot a valid numpy index names: negative indices count from the end. */
  function Wrapped(j: int, n: int): (k: int)
    requires ValidIndex(j, n)
    ensures 0 <= k < n
    ensures j >= 0 ==> k == j
    ensures j < 0 ==> k == n + j
  {
    if j < 0 then n + j else j
  }

  /** Choosing number v increments slot k of an n-slot array (`num_connections[v - 1] += 1`). */
  predicate Lands(v: int, n: int, k: int) {
    ValidIndex(v - 1, n) && Wrapped(v - 1, n) == k
  }

  predicate AllInRange(cells: seq<int>, n: nat) {
    forall i :: 0 <= i < |cells| ==> ValidIndex(cells[i] - 1, n)
  }

  /** The number of cells that increment slot k. */
  function Hits(cells: seq<int>, n: nat, k: int): nat {
    if cells == [] then 0
    else Hits(cells[..|cells| - 1], n, k) + (if Lands(cells[|cells| - 1], n, k) then 1 else 0)
  }

  /** Python's `count_connections` as a value: the tally, or the `IndexError` of the first bad cell. */
  function Tally(t: Survey): (r: Result<seq<int>>)
    ensures r.Err? ==> r.error == IndexError
    ensures r.Ok? <==> AllInRange(Cells(t.choices), Rows(t))
    ensures r.Ok? ==> |r.value| == Rows(t)
  {
    if AllInRange(Cells(t.choices), Rows(t)) then
      Ok(seq(Rows(t), k => Hits(Cells(t.choices), Rows(t), k)))
    else Err(IndexError)
  }

  lemma {:induction false} HitsAppend(a: seq<int>, b: seq<int>, n: nat, k: int)
    ensures Hits(a + b, n, k) == Hits(a, n, k) + Hits(b, n, k)
    decreases |b|
  {
    if b == [] {
      assert a + b == a;
    } else {
      var b' := b[..|b| - 1];
      assert (a + b)[..|a + b| - 1] == a + b';
      HitsAppend(a, b', n, k);
    }
  }

  lemma AllInRangeAppend(a: seq<int>, b: seq<int>, n: nat)
    ensures AllInRange(a + b, n) <==> AllInRange(a, n) && AllInRange(b, n)
  {
    if AllInRange(a, n) && AllInRange(b, n) {
      forall i | 0 <= i < |a + b|
        ensures ValidIndex((a + b)[i] - 1, n)
      {
        if i >= |a| {
          assert (a + b)[i] == b[i - |a|];
        }
      }
    }
    if AllInRange(a + b, n) {
      forall i | 0 <= i < |b|
        ensures ValidIndex(b[i] - 1, n)
      {
        assert b[i] == (a + b)[|a| + i];
      }
      forall i | 0 <= i < |a|
        ensures ValidIndex(a[i] - 1, n)
      {
        assert a[i] == (a + b)[i];
      }
    }
  }

  /** Adds the hits of one column to `counts`; false at the first cell outside the array. */
  method TallyColumn(counts: array<int>, column: seq<int>) returns (ok: bool)
    modifies counts
    ensures ok <==> AllInRange(column, counts.Length)
    ensures ok ==> forall k :: 0 <= k < counts.Length ==> counts[k] == old(counts[k]) + Hits(column, counts.Length, k)
  {
    var n := counts.Length;
    var j := 0;
    while j < |column|
      invariant 0 <= j <= |column|
      invariant AllInRange(column[..j], n)
      invariant forall k :: 0 <= k < n ==> counts[k] == old(counts[k]) + Hits(column[..j], n, k)
    {
      var v := column[j];
      if !ValidIndex(v - 1, n) {
        assert !AllInRange(column, n) by {
          assert !ValidIndex(column[j] - 1, n);
        }
        return false;
      }
      var slot := Wrapped(v - 1, n);
      counts[slot] := counts[slot] + 1;
      assert column[..j + 1][..j] == column[..j];
      assert AllInRange(column[..j + 1], n) by {
        AllInRangeAppend(column[..j], [v], n);
        assert column[..j + 1] == column[..j] + [v];
      }
      j := j + 1;
    }
    assert column[..j] == column;
    return true;
  }

  /**
   * `count_connections`: slot k of the result counts the cells of the choice
   * columns that name slot k; a cell no slot answers to is an `IndexError`.
   */
  method CountConnections(t: Survey) returns (r: Result<seq<int>>)
    ensures r == Tally(t)
  {
    var n := Rows(t);
    var counts := new int[n](_ => 0);
    var c := 0;
    while c < |t.choices|
      invariant 0 <= c <= |t.choices|
      invariant AllInRange(Cells(t.choices[..c]), n)
      invariant forall k :: 0 <= k < n ==> counts[k] == Hits(Cells(t.choices[..c]), n, k)
    {
      var ok := TallyColumn(counts, t.choices[c]);
      assert t.choices[..c + 1][..c] == t.choices[..c];
      assert Cells(t.choices[..c + 1]) == Cells(t.choices[..c]) + t.choices[c];
      AllInRangeAppend(Cells(t.choices[..c]), t.choices[c], n);
      if !ok {
        assert !AllInRange(Cells(t.choices), n) by {
          CellsPrefix(t.choices, c + 1);
          AllInRangeAppend(Cells(t.choices[..c + 1]), Cells(t.choices[c + 1..]), n);
        }
        return Err(IndexError);
      }
      forall k | 0 <= k < n
        ensures counts[k] == Hits(Cells(t.choices[..c + 1]), n, k)
      {
        HitsAppend(Cells(t.choices[..c]), t.choices[c], n, k);
      }
      c := c + 1;
    }
    assert t.choices[..c] == t.choices;
    assert counts[..] == seq(n, k => Hits(Cells(t.choices), n, k));
    return Ok(counts[..]);
  }

  /** With every cell a number 1..n, slot k - 1 counts the cells equal to k. */
  lemma {:induction false} OneBasedCounts(cells: seq<int>, n: nat, k: int)
    requires forall i :: 0 <= i < |cells| ==> 1 <= cells[i] <= n
    requires 1 <= k <= n
    ensures Hits(cells, n, k - 1) == Occurs(cells, k)
  {
    if cells != [] {
      OneBasedCounts(cells[..|cells| - 1], n, k);
    }
  }

  /** A cell holding 0 is counted for the last cadet, since slot -1 is the last one. */
  lemma {:induction false} ZeroCountsLast(cells: seq<int>, n: nat)
    requires n > 0
    ensures Hits(cells + [0], n, n - 1) == Hits(cells, n, n - 1) + 1
  {
    assert (cells + [0])[..|cells + [0]| - 1] == cells;
  }

  function Sum(s: seq<int>): int {
    if s == [] then 0 else s[0] + Sum(s[1..])
  }

  lemma {:induction false} SumBump(s: seq<int>, w: nat)
    requires w < |s|
    ensures Sum(s[w := s[w] + 1]) == Sum(s) + 1
  {
    if w == 0 {
      assert s[w := s[w] + 1][1..] == s[1..];
    } else {
      assert s[w := s[w] + 1][1..] == s[1..][w - 1 := s[1..][w - 1] + 1];
      SumBump(s[1..], w - 1);
    }
  }

  /** When no cell raises, every chosen cell is counted exactly once: the counts sum to the number of cells. */
  lemma {:induction false} TallySum(cells: seq<int>, n: nat)
    requires AllInRange(cells, n)
    ensures Sum(seq(n, k => Hits(cells, n, k))) == |cells|
  {
    if cells == [] {
      var z := seq(n, k => Hits(cells, n, k));
      ZeroSum(z);
    } else {
      var front := cells[..|cells| - 1];
      var v := cells[|cells| - 1];
      assert AllInRange(front, n) by {
        assert forall i :: 0 <= i < |front| ==> front[i] == cells[i];
      }
      TallySum(front, n);
      var before := seq(n, k => Hits(front, n, k));
      var w := Wrapped(v - 1, n);
      assert seq(n, k => Hits(cells, n, k)) == before[w := before[w] + 1];
      SumBump(before, w);
    }
  }

  lemma {:induction false} ZeroSum(s: seq<int>)
    requires forall i :: 0 <= i < |s| ==> s[i] == 0
    ensures Sum(s) == 0
  {
    if s != [] {
      ZeroSum(s[1..]);
    }
  }

  /** The tally of a sheet has one entry per row and sums to its number of choice cells. */
  lemma TallyTotal(t: Survey)
    requires Tally(t).Ok?
    ensures |Tally(t).value| == Rows(t)
    ensures Sum(Tally(t).value) == |Cells(t.choices)|
  {
    TallySum(Cells(t.choices), Rows(t));
  }

  // ---------------------------------------------------------------------
  // count_connections_by_name

  /** The first row carrying the name, as `data.index[data[name] == name].tolist()[0]`. */
  function FirstRow(names: seq<string>, name: string): (r: Option<nat>)
    ensures r.None? <==> name !in names
    ensures r.Some? ==> r.value < |names| && names[r.value] == name
    ensures r.Some? ==> forall j :: 0 <= j < r.value ==> names[j] != name
  {
    if names == [] then None
    else if names[0] == name then Some(0)
    else match FirstRow(names[1..], name)
      case None => None
      case Some(j) => Some(j + 1)
  }

  /**
   * `count_connections_by_name`: -1 for an unknown name, else the count of the
   * first matching row's own number; a number no slot answers to is an `IndexError`.
   */
  function CountByName(t: Survey, connections: seq<int>, name: string): (r: Result<int>)
    requires WellFormed(t)
    ensures name !in t.names ==> r == Ok(-1)
    ensures name in t.names ==> exists i ::
      && 0 <= i < |t.names| && t.names[i] == name
      && (forall j :: 0 <= j < i ==> t.names[j] != name)
      && (if ValidIndex(t.numbers[i] - 1, |connections|)
          then r == Ok(connections[Wrapped(t.numbers[i] - 1, |connections|)])
          else r == Err(IndexError))
  {
    match FirstRow(t.names, name)
    case None => Ok(-1)
    case Some(i) =>
      var j := t.numbers[i] - 1;
      if ValidIndex(j, |connections|) then Ok(connections[Wrapped(j, |connections|)])
      else Err(IndexError)
  }

  // ---------------------------------------------------------------------
  // highlight_cells and highlight_diff

  /** A table cell: the name column holds text, the semester columns counts. */
  datatype Cell = Text(text: string) | Number(count: int)

  const Red: string := "color: red"
  const Green: string := "color: green"
  const LightBlue: string := "background-color: lightblue"
  const LightYellow: string := "background-color: lightyellow"

  /** `highlight_cells`: red at or below 3 connections, green at or above 10, text never coloured. */
  function HighlightCells(c: Cell): (r: string)
    ensures c.Text? ==> r == ""
    ensures c.Number? ==> (r == Red <==> c.count <= LowThresh)
    ensures c.Number? ==> (r == Green <==> c.count >= HighThresh)
    ensures c.Number? ==> (r == "" <==> LowThresh < c.count < HighThresh)
  {
    match c
    case Text(_) => ""
    case Number(x) =>
      if x <= LowThresh then Red
      else if x >= HighThresh then Green
      else ""
  }

  /**
   * `highlight_diff` over one table row (name first, then one count per
   * semester): a semester is light blue after a rise of at least 5, light yellow
   * after a drop of at least 5; the name and the first semester are never marked.
   */
  method HighlightDiff(values: seq<Cell>) returns (r: seq<string>)
    requires forall i :: 1 <= i < |values| ==> values[i].Number?
    ensures |r| == |values|
    ensures |values| > 0 ==> r[0] == ""
    ensures |values| > 1 ==> r[1] == ""
    ensures forall i :: 2 <= i < |values| ==>
      (r[i] == LightBlue <==> values[i].count - values[i - 1].count >= DiffThresh)
    ensures forall i :: 2 <= i < |values| ==>
      (r[i] == LightYellow <==> values[i].count - values[i - 1].count <= -DiffThresh)
    ensures forall i :: 2 <= i < |values| ==>
      (r[i] == "" <==> -DiffThresh < values[i].count - values[i - 1].count < DiffThresh)
  {
    var result := new string[|values|](_ => "");
    var i := 2;
    while i < |values|
      invariant 2 <= i
      invariant |values| >= 2 ==> i <= |values|
      invariant forall j :: 0 <= j < result.Length && (j < 2 || j >= i) ==> result[j] == ""
      invariant forall j :: 2 <= j < i && j < |values| ==>
        (result[j] == LightBlue <==> values[j].count - values[j - 1].count >= DiffThresh)
        && (result[j] == LightYellow <==> values[j].count - values[j - 1].count <= -DiffThresh)
        && (result[j] == "" <==> -DiffThresh < values[j].count - values[j - 1].count < DiffThresh)
    {
      var d := values[i].count - values[i - 1].count;
      if d >= DiffThresh {
        result[i] := LightBlue;
      } else if d <= -DiffThresh {
        result[i] := LightYellow;
      }
      i := i + 1;
    }
    r := result[..];
  }

  // ---------------------------------------------------------------------
  // The summary of get_popularity_over_time

  /** One line of the summary text. */
  datatype Note =
    | Only(name: string, amount: int)   // "<name> has only <n> connections"
    | More(name: string, amount: int)   // "<name> has <n> more connections"
    | Less(name: string, amount: int)   // "<name> has <n> less connections"

  /** The line of the summary text a note stands for. */
  function Render(n: Note): string {
    Line(n.name, Lead(n), TextHelpers.Decimal(n.amount), Tail(n))
  }

  function Line(name: string, lead: string, amount: string, tail: string): string {
    name + lead + amount + tail
  }

  function Lead(n: Note): string {
    if n.Only? then " has only " else " has "
  }

  function Tail(n: Note): string {
    match n
    case Only(_, _) => " connections\n"
    case More(_, _) => " more connections\n"
    case Less(_, _) => " less connections\n"
  }

  function RenderAll(notes: seq<Note>): string {
    if notes == [] then "" else RenderAll(notes[..|notes| - 1]) + Render(notes[|notes| - 1])
  }

  /** Rendering one more note appends that note's line. */
  lemma RenderAllSnoc(done: seq<Note>, x: Note)
    ensures RenderAll(done + [x]) == RenderAll(done) + Render(x)
  {
    var d := done + [x];
    assert d[..|d| - 1] == done && d[|d| - 1] == x;
  }

  /** The notes for one cadet, as the source writes them: the "more" line carries the latest count. */
  function NotesAsWritten(name: string, counts: seq<int>): seq<Note>
    requires |counts| > 0
  {
    var first, last := counts[0], counts[|counts| - 1];
    (if last <= LowThresh then [Only(name, last)] else [])
    + (if last - first >= DiffThresh then [More(name, last)]
       else if last - first <= -DiffThresh then [Less(name, first - last)]
       else [])
  }

  /** The notes for one cadet, with the "more" line carrying the rise, as the "less" line carries the drop. */
  function Notes(name: string, counts: seq<int>): seq<Note>
    requires |counts| > 0
  {
    var first, last := counts[0], counts[|counts| - 1];
    (if last <= LowThresh then [Only(name, last)] else [])
    + (if last - first >= DiffThresh then [More(name, last - first)]
       else if last - first <= -DiffThresh then [Less(name, first - last)]
       else [])
  }

  predicate HasOnly(notes: seq<Note>) {
    exists i :: 0 <= i < |notes| && notes[i].Only?
  }

  predicate HasMore(notes: seq<Note>) {
    exists i :: 0 <= i < |notes| && notes[i].More?
  }

  predicate HasLess(notes: seq<Note>) {
    exists i :: 0 <= i < |notes| && notes[i].Less?
  }

  /**
   * The summary rules: a "has only" line iff the latest count is at most 3, a
   * "more" line iff the count rose by at least 5 since the first round, a "less"
   * line iff it fell by at least 5, never both, all about the cadet named; the
   * only-line carries the latest count, the change lines the size of the change.
   */
  lemma NotesRules(name: string, counts: seq<int>)
    requires |counts| > 0
    ensures var ns, first, last := Notes(name, counts), counts[0], counts[|counts| - 1];
      && (HasOnly(ns) <==> last <= LowThresh)
      && (HasMore(ns) <==> last - first >= DiffThresh)
      && (HasLess(ns) <==> first - last >= DiffThresh)
      && !(HasMore(ns) && HasLess(ns))
      && (forall i :: 0 <= i < |ns| ==> ns[i].name == name)
      && (forall i :: 0 <= i < |ns| && ns[i].Only? ==> ns[i].amount == last)
      && (forall i :: 0 <= i < |ns| && !ns[i].Only? ==> ns[i].amount == if last >= first then last - first else first - last)
  {
    var ns, first, last := Notes(name, counts), counts[0], counts[|counts| - 1];
    if last <= LowThresh {
      assert ns[0].Only?;
    }
    if last - first >= DiffThresh {
      assert ns[|ns| - 1].More?;
    }
    if first - last >= DiffThresh {
      assert ns[|ns| - 1].Less?;
    }
  }

  /**
   * The summary rules as the source applies them: the same three lines under the
   * same conditions, never both a "more" and a "less" line; the only-line and the
   * more-line carry the latest count, the less-line the size of the drop.
   */
  lemma NotesAsWrittenRules(name: string, counts: seq<int>)
    requires |counts| > 0
    ensures var ns, first, last := NotesAsWritten(name, counts), counts[0], counts[|counts| - 1];
      && (HasOnly(ns) <==> last <= LowThresh)
      && (HasMore(ns) <==> last - first >= DiffThresh)
      && (HasLess(ns) <==> first - last >= DiffThresh)
      && !(HasMore(ns) && HasLess(ns))
      && (forall i :: 0 <= i < |ns| ==> ns[i].name == name)
      && (forall i :: 0 <= i < |ns| && (ns[i].Only? || ns[i].More?) ==> ns[i].amount == last)
      && (forall i :: 0 <= i < |ns| && ns[i].Less? ==> ns[i].amount == first - last)
  {
    var ns, first, last := NotesAsWritten(name, counts), counts[0], counts[|counts| - 1];
    if last <= LowThresh {
      assert ns[0].Only?;
    }
    if last - first >= DiffThresh {
      assert ns[|ns| - 1].More?;
    }
    if first - last >= DiffThresh {
      assert ns[|ns| - 1].Less?;
    }
  }

  /** The corrected notes differ from the written ones only in the amount of a "more" line. */
  lemma CorrectionOnlyInMore(name: string, counts: seq<int>)
    requires |counts| > 0
    ensures |Notes(name, counts)| == |NotesAsWritten(name, counts)|
    ensures forall i :: 0 <= i < |Notes(name, counts)| && !Notes(name, counts)[i].More? ==>
      Notes(name, counts)[i] == NotesAsWritten(name, counts)[i]
    ensures forall i :: 0 <= i < |Notes(name, counts)| && Notes(name, counts)[i].More? ==>
      NotesAsWritten(name, counts)[i] == More(name, counts[|counts| - 1]) &&
      Notes(name, counts)[i] == More(name, counts[|counts| - 1] - counts[0])
  {
  }

  /** As written, a rise from 1 to 7 connections is reported as "7 more", not "6 more". */
  lemma MoreLineAsWrittenWrong()
    ensures NotesAsWritten("a", [1, 7]) == [More("a", 7)]
    ensures Notes("a", [1, 7]) == [More("a", 6)]
    ensures RenderAll(NotesAsWritten("a", [1, 7])) != RenderAll(Notes("a", [1, 7]))
  {
    assert TextHelpers.Digits(7) == "7";
    assert TextHelpers.Digits(6) == "6";
    var w := RenderAll(NotesAsWritten("a", [1, 7]));
    var c := RenderAll(Notes("a", [1, 7]));
    assert w[6] == '7' && c[6] == '6';
  }

  /** The running lists of counts of each sheet, or the first `IndexError`. */
  function Connections(ts: seq<Survey>): (r: Result<seq<seq<int>>>)
    ensures r.Ok? ==> |r.value| == |ts|
    ensures r.Ok? ==> forall i :: 0 <= i < |ts| ==> Tally(ts[i]) == Ok(r.value[i])
  {
    if ts == [] then Ok([])
    else
      var front :- Connections(ts[..|ts| - 1]);
      var last :- Tally(ts[|ts| - 1]);
      Ok(front + [last])
  }

  /** `[count_connections_by_name(dfs[i], connections[i], name) for i in range(len(dfs))]`. */
  function CountsOf(ts: seq<Survey>, conns: seq<seq<int>>, name: string): (r: Result<seq<int>>)
    requires |conns| == |ts|
    requires forall i :: 0 <= i < |ts| ==> WellFormed(ts[i])
    ensures r.Ok? ==> |r.value| == |ts|
    ensures r.Ok? ==> forall i :: 0 <= i < |ts| ==> CountByName(ts[i], conns[i], name) == Ok(r.value[i])
  {
    if ts == [] then Ok([])
    else
      var front :- CountsOf(ts[..|ts| - 1], conns[..|conns| - 1], name);
      var last :- CountByName(ts[|ts| - 1], conns[|conns| - 1], name);
      Ok(front + [last])
  }

  /** The notes about the first k rows of the latest sheet. */
  function NotesUpTo(ts: seq<Survey>, conns: seq<seq<int>>, k: nat): Result<seq<Note>>
    requires |ts| > 0 && |conns| == |ts|
    requires forall i :: 0 <= i < |ts| ==> WellFormed(ts[i])
    requires k <= Rows(ts[|ts| - 1])
    decreases k, 1
  {
    if k == 0 then Ok([]) else NotesThrough(ts, conns, k)
  }

  /** With at least one row: the notes about the first k - 1 rows, then those about row k - 1. */
  function NotesThrough(ts: seq<Survey>, conns: seq<seq<int>>, k: nat): Result<seq<Note>>
    requires |ts| > 0 && |conns| == |ts|
    requires forall i :: 0 <= i < |ts| ==> WellFormed(ts[i])
    requires 0 < k <= Rows(ts[|ts| - 1])
    decreases k, 0
  {
    var front :- NotesUpTo(ts, conns, k - 1);
    var counts :- CountsOf(ts, conns, ts[|ts| - 1].names[k - 1]);
    Ok(front + NotesAsWritten(ts[|ts| - 1].names[k - 1], counts))
  }

  /** The summary text for a list of survey sheets, the latest last. */
  function Summary(ts: seq<Survey>): Result<string>
    requires forall i :: 0 <= i < |ts| ==> WellFormed(ts[i])
  {
    var conns :- Connections(ts);
    if ts == [] then Err(IndexError)
    else
      var notes :- NotesUpTo(ts, conns, Rows(ts[|ts| - 1]));
      Ok(RenderAll(notes))
  }

  /**
   * The summary part of `get_popularity_over_time`: the sheets are counted in
   * turn, then each cadet of the latest sheet gets their lines in row order.
   */
  method PopularitySummary(ts: seq<Survey>) returns (r: Result<string>)
    requires forall i :: 0 <= i < |ts| ==> WellFormed(ts[i])
    ensures r == Summary(ts)
  {
    var conns: seq<seq<int>> := [];
    var i := 0;
    while i < |ts|
      invariant 0 <= i <= |ts|
      invariant Connections(ts[..i]) == Ok(conns)
    {
      var c := CountConnections(ts[i]);
      assert ts[..i + 1][..i] == ts[..i];
      if c.Err? {
        ConnectionsPrefix(ts, i + 1);
        return Err(c.error);
      }
      conns := conns + [c.value];
      i := i + 1;
    }
    assert ts[..i] == ts;
    if |ts| == 0 {
      return Err(IndexError);
    }
    r := SummaryText(ts, conns);
  }

  /** The second loop of the summary: the lines about each cadet of the latest sheet, in row order. */
  method SummaryText(ts: seq<Survey>, conns: seq<seq<int>>) returns (r: Result<string>)
    requires |ts| > 0 && |conns| == |ts|
    requires forall i :: 0 <= i < |ts| ==> WellFormed(ts[i])
    ensures r.Ok? ==> NotesUpTo(ts, conns, Rows(ts[|ts| - 1])).Ok?
    ensures r.Ok? ==> r.value == RenderAll(NotesUpTo(ts, conns, Rows(ts[|ts| - 1])).value)
    ensures r.Err? ==> NotesUpTo(ts, conns, Rows(ts[|ts| - 1])) == Err(r.error)
  {
    var latest := ts[|ts| - 1];
    var summary := "";
    ghost var notes: seq<Note> := [];
    var k := 0;
    while k < |latest.names|
      invariant latest == ts[|ts| - 1]
      invariant 0 <= k <= |latest.names|
      invariant NotesUpTo(ts, conns, k) == Ok(notes)
      invariant summary == RenderAll(notes)
    {
      var name := latest.names[k];
      var counts := CountsOf(ts, conns, name);
      NotesStep(ts, conns, k, notes);
      if counts.Err? {
        NotesUpToPrefix(ts, conns, k + 1, |latest.names|);
        return Err(counts.error);
      }
      var ns := NotesAsWritten(name, counts.value);
      summary := AppendLines(summary, notes, ns);
      notes := notes + ns;
      k := k + 1;
    }
    return Ok(summary);
  }

  lemma NotesStep(ts: seq<Survey>, conns: seq<seq<int>>, k: nat, notes: seq<Note>)
    requires |ts| > 0 && |conns| == |ts|
    requires forall i :: 0 <= i < |ts| ==> WellFormed(ts[i])
    requires k < Rows(ts[|ts| - 1]) && NotesUpTo(ts, conns, k) == Ok(notes)
    ensures var counts := CountsOf(ts, conns, ts[|ts| - 1].names[k]);
      NotesUpTo(ts, conns, k + 1) == if counts.Err? then Err(counts.error)
        else Ok(notes + NotesAsWritten(ts[|ts| - 1].names[k], counts.value))
  {
  }

  /** `summary_str += ...` for each line of one cadet. */
  method AppendLines(summary: string, ghost notes: seq<Note>, ns: seq<Note>) returns (s: string)
    requires summary == RenderAll(notes)
    ensures s == RenderAll(notes + ns)
  {
    s := summary;
    var j := 0;
    assert notes + ns[..0] == notes;
    while j < |ns|
      invariant 0 <= j <= |ns|
      invariant s == RenderAll(notes + ns[..j])
    {
      Sorting.AppendTake(notes, ns, j);
      RenderAllSnoc(notes + ns[..j], ns[j]);
      s := s + Render(ns[j]);
      j := j + 1;
    }
    assert ns[..j] == ns;
  }

  /** A failure on a prefix of the sheets is a failure on all of them. */
  lemma {:induction false} ConnectionsPrefix(ts: seq<Survey>, i: nat)
    requires i <= |ts| && Connections(ts[..i]).Err?
    ensures Connections(ts).Err?
    ensures Connections(ts).error == Connections(ts[..i]).error
    decreases |ts| - i
  {
    if i < |ts| {
      assert ts[..i + 1][..i] == ts[..i];
      ConnectionsPrefix(ts, i + 1);
    } else {
      assert ts[..i] == ts;
    }
  }

  lemma {:induction false} NotesUpToPrefix(ts: seq<Survey>, conns: seq<seq<int>>, k: nat, m: nat)
    requires |ts| > 0 && |conns| == |ts|
    requires forall i :: 0 <= i < |ts| ==> WellFormed(ts[i])
    requires k <= m <= Rows(ts[|ts| - 1])
    requires NotesUpTo(ts, conns, k).Err?
    ensures NotesUpTo(ts, conns, m) == NotesUpTo(ts, conns, k)
    decreases m - k
  {
    if k < m {
      NotesUpToPrefix(ts, conns, k, m - 1);
      NotesUpToErr(ts, conns, m);
    }
  }

  /** A failure before row m is the failure at row m. */
  lemma NotesUpToErr(ts: seq<Survey>, conns: seq<seq<int>>, m: nat)
    requires |ts| > 0 && |conns| == |ts|
    requires forall i :: 0 <= i < |ts| ==> WellFormed(ts[i])
    requires 0 < m <= Rows(ts[|ts| - 1])
    requires NotesUpTo(ts, conns, m - 1).Err?
    ensures NotesUpTo(ts, conns, m) == NotesUpTo(ts, conns, m - 1)
  {
  }
}
