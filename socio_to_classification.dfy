/**
 * The comment classifier's bookkeeping: the batch-wait counter that paces the
 * calls to the language model, and the mapping from the model's answer to the
 * one "TRUE" cell it sets in the Classification sheet.
 */
module Classification {
  import opened Outcomes

  /**
   * `smart_wait`: counts the prompts sent and sleeps after every `numBatches`-th.
   * The sleep itself is an outside effect; `Next` reports whether it happens.
   */
  class SmartWait {
    var numBatches: int
    var waitSecs: real
    var i: int

    constructor (numBatches: int, waitSecs: real)
      ensures this.numBatches == numBatches && this.waitSecs == waitSecs && i == 0
    {
      this.numBatches := numBatches;
      this.waitSecs := waitSecs;
      i := 0;
    }

    /**
     * `__next__`: the counter grows by one, then the call sleeps exactly when the
     * new count is a multiple of `numBatches`; a zero batch size fails on the `%`.
     */
    method Next() returns (r: Result<bool>)
      modifies this
      ensures i == old(i) + 1 && numBatches == old(numBatches) && waitSecs == old(waitSecs)
      ensures numBatches == 0 <==> r == Err(ZeroDivisionError)
      ensures numBatches != 0 ==> r == Ok(i % numBatches == 0)
    {
      i := i + 1;
      if numBatches == 0 {
        return Err(ZeroDivisionError);
      }
      return Ok(i % numBatches == 0);
    }
  }

  /** How many of the counts 1..k make `Next` sleep. */
  function Sleeps(k: nat, numBatches: int): (r: nat)
    requires numBatches != 0
    ensures r <= k
  {
    if k == 0 then 0 else Sleeps(k - 1, numBatches) + (if k % numBatches == 0 then 1 else 0)
  }

  /** After k calls from a fresh counter, the wait has happened k / numBatches times. */
  lemma {:induction false} SleepsCount(k: nat, numBatches: int)
    requires numBatches > 0
    ensures Sleeps(k, numBatches) == k / numBatches
  {
    if k > 0 {
      SleepsCount(k - 1, numBatches);
      DivStep(k, numBatches);
    }
  }

  /** A larger multiplier of a positive b gives a product at least b larger. */
  lemma {:induction false} MulGap(b: int, hi: int, lo: int)
    requires b > 0
    ensures hi > lo ==> b * hi - b * lo >= b
    decreases hi - lo
  {
    if hi > lo + 1 {
      MulGap(b, hi - 1, lo);
      assert b * hi == b * (hi - 1) + b;
    }
  }

  /** Quotient and remainder are the only ones with x == b * q + r and 0 <= r < b. */
  lemma DivUnique(x: int, b: int, q: int, r: int)
    requires b > 0 && 0 <= r < b && x == b * q + r
    ensures x / b == q && x % b == r
  {
    var q0, r0 := x / b, x % b;
    assert x == b * q0 + r0;
    MulGap(b, q0, q);
    MulGap(b, q, q0);
  }

  /** Going from k - 1 to k, the quotient grows by one exactly at a multiple. */
  lemma DivStep(k: nat, b: int)
    requires k > 0 && b > 0
    ensures k / b == (k - 1) / b + (if k % b == 0 then 1 else 0)
  {
    var q, s := (k - 1) / b, (k - 1) % b;
    assert k - 1 == b * q + s;
    if s + 1 == b {
      assert k == b * (q + 1) + 0;
      DivUnique(k, b, q + 1, 0);
    } else {
      DivUnique(k, b, q, s + 1);
    }
  }

  /** The six categories, with the column offset the source gives each. */
  datatype Category = InterpersonalSkills | IntrapersonalSkills | Professionalism | Conduct | Leadership | Other

  function Offset(c: Category): (r: nat)
    ensures r < 6
  {
    match c
    case InterpersonalSkills => 0
    case IntrapersonalSkills => 1
    case Professionalism => 2
    case Conduct => 3
    case Leadership => 4
    case Other => 5
  }

  /** The order in which the keywords are tested: "other" first. */
  const Priority: seq<Category> := [Other, InterpersonalSkills, IntrapersonalSkills, Professionalism, Conduct, Leadership]

  /** The position of c in Priority. */
  function Rank(c: Category): (r: nat)
    ensures r < |Priority| && Priority[r] == c
  {
    match c
    case Other => 0
    case InterpersonalSkills => 1
    case IntrapersonalSkills => 2
    case Professionalism => 3
    case Conduct => 4
    case Leadership => 5
  }

  /** The keyword looked for in the lower-cased answer. */
  function Keyword(c: Category): string {
    match c
    case InterpersonalSkills => "interpersonal skills"
    case IntrapersonalSkills => "intrapersonal skills"
    case Professionalism => "professionalism"
    case Conduct => "conduct"
    case Leadership => "leadership"
    case Other => "other"
  }

  /** The category's name as the Classification sheet's header row writes it. */
  function CategoryName(c: Category): string {
    match c
    case InterpersonalSkills => "Interpersonal Skills"
    case IntrapersonalSkills => "Intrapersonal Skills"
    case Professionalism => "Professionalism"
    case Conduct => "Conduct"
    case Leadership => "Leadership"
    case Other => "Other"
  }

  /** `str.lower` on the ASCII letters. */
  function LowerChar(ch: char): char {
    if 'A' <= ch <= 'Z' then (ch as int + 32) as char else ch
  }

  function Lower(s: string): (r: string)
    ensures |r| == |s| && forall k :: 0 <= k < |s| ==> r[k] == LowerChar(s[k])
  {
    if s == [] then [] else [LowerChar(s[0])] + Lower(s[1..])
  }

  /** Python's `kw in s` for strings: kw occurs as a contiguous piece of s. */
  predicate Contains(s: string, kw: string) {
    if |s| < |kw| then false else s[..|kw|] == kw || Contains(s[1..], kw)
  }

  /** The decision of `set_classifications`: the first keyword found, in rank order, or none. */
  function Classify(text: string): (r: Option<Category>)
    ensures Contains(Lower(text), Keyword(Other)) ==> r == Some(Other)
  {
    var t := Lower(text);
    if Contains(t, Keyword(Other)) then Some(Other)
    else if Contains(t, Keyword(InterpersonalSkills)) then Some(InterpersonalSkills)
    else if Contains(t, Keyword(IntrapersonalSkills)) then Some(IntrapersonalSkills)
    else if Contains(t, Keyword(Professionalism)) then Some(Professionalism)
    else if Contains(t, Keyword(Conduct)) then Some(Conduct)
    else if Contains(t, Keyword(Leadership)) then Some(Leadership)
    else None
  }

  /**
   * Keyword priority: the answer is category c exactly when c's keyword occurs
   * and none of the keywords tested before it does; it is no category exactly
   * when no keyword occurs.
   */
  lemma ClassifyMeaning(text: string, c: Category)
    ensures Classify(text) == Some(c) <==>
      Contains(Lower(text), Keyword(c)) && forall d :: d in Priority[..Rank(c)] ==> !Contains(Lower(text), Keyword(d))
  {
    var t := Lower(text);
    var h0, h1, h2, h3, h4 := Contains(t, Keyword(Other)), Contains(t, Keyword(InterpersonalSkills)),
      Contains(t, Keyword(IntrapersonalSkills)), Contains(t, Keyword(Professionalism)), Contains(t, Keyword(Conduct));
    var before := forall d :: d in Priority[..Rank(c)] ==> !Contains(t, Keyword(d));
    match c
    case Other =>
    case InterpersonalSkills =>
      assert Priority[..Rank(c)] == [Other];
      assert before <==> !h0;
    case IntrapersonalSkills =>
      assert Priority[..Rank(c)] == [Other, InterpersonalSkills];
      assert before <==> !h0 && !h1;
    case Professionalism =>
      assert Priority[..Rank(c)] == [Other, InterpersonalSkills, IntrapersonalSkills];
      assert before <==> !h0 && !h1 && !h2;
    case Conduct =>
      assert Priority[..Rank(c)] == [Other, InterpersonalSkills, IntrapersonalSkills, Professionalism];
      assert before <==> !h0 && !h1 && !h2 && !h3;
    case Leadership =>
      assert Priority[..Rank(c)] == [Other, InterpersonalSkills, IntrapersonalSkills, Professionalism, Conduct];
      assert before <==> !h0 && !h1 && !h2 && !h3 && !h4;
  }

  /** No category exactly when none of the keywords occurs. */
  lemma ClassifyNone(text: string)
    ensures Classify(text).None? <==> forall d :: d in Priority ==> !Contains(Lower(text), Keyword(d))
  {
    if Classify(text).Some? {
      var c := Classify(text).value;
      ClassifyMeaning(text, c);
      PriorityComplete(c);
    }
  }

  /** Every category is in Priority, so "no keyword of Priority" means no keyword at all. */
  lemma PriorityComplete(c: Category)
    ensures c in Priority
  {
    assert Priority[Rank(c)] == c;
  }

  lemma {:induction false} LowerIdempotent(s: string)
    ensures Lower(Lower(s)) == Lower(s)
  {
    if s != [] {
      LowerIdempotent(s[1..]);
      assert Lower(s)[1..] == Lower(s[1..]);
    }
  }

  /** The decision ignores case: the answer and its lower-cased form classify alike. */
  lemma ClassifyIgnoresCase(text: string)
    ensures Classify(Lower(text)) == Classify(text)
  {
    LowerIdempotent(text);
  }

  /** `chr(base_col_ascii + offset)`: the column is in B..G for conserve and I..N for improve. */
  function Column(isImprove: bool, c: Category): (r: char)
    ensures isImprove ==> 'I' <= r <= 'N'
    ensures !isImprove ==> 'B' <= r <= 'G'
    ensures r as int == (if isImprove then 'I' else 'B') as int + Offset(c)
  {
    ((if isImprove then 'I' else 'B') as int + Offset(c)) as char
  }

  /** Different (kind, category) pairs write different columns. */
  lemma ColumnInjective(b1: bool, c1: Category, b2: bool, c2: Category)
    ensures Column(b1, c1) == Column(b2, c2) ==> b1 == b2 && c1 == c2
  {
    if Column(b1, c1) == Column(b2, c2) {
      assert b1 == b2;
      match c1 { case _ => }
    }
  }

  /** The header row that `classify_sheet` writes, by column. */
  function Header(col: char): Option<string> {
    match col
    case 'A' => Some("Original_conserve")
    case 'B' => Some("Interpersonal Skills")
    case 'C' => Some("Intrapersonal Skills")
    case 'D' => Some("Professionalism")
    case 'E' => Some("Conduct")
    case 'F' => Some("Leadership")
    case 'G' => Some("Other")
    case 'H' => Some("Original_improve")
    case 'I' => Some("Interpersonal Skills2")
    case 'J' => Some("Intrapersonal Skills2")
    case 'K' => Some("Professionalism2")
    case 'L' => Some("Conduct2")
    case 'M' => Some("Leadership2")
    case 'N' => Some("Other2")
    case _ => None
  }

  /** The column written for category c sits under the header naming c (with "2" on the improve side). */
  lemma HeaderConsistent(isImprove: bool, c: Category)
    ensures Header(Column(isImprove, c)) == Some(CategoryName(c) + (if isImprove then "2" else ""))
  {
    match c
    case InterpersonalSkills =>
      if isImprove {
        assert 'I' as int + 0 == 'I' as int;
        assert CategoryName(c) + "2" == "Interpersonal Skills2";
      } else {
        assert 'B' as int + 0 == 'B' as int;
        assert CategoryName(c) + "" == "Interpersonal Skills";
      }
    case IntrapersonalSkills =>
      if isImprove {
        assert 'I' as int + 1 == 'J' as int;
        assert CategoryName(c) + "2" == "Intrapersonal Skills2";
      } else {
        assert 'B' as int + 1 == 'C' as int;
        assert CategoryName(c) + "" == "Intrapersonal Skills";
      }
    case Professionalism =>
      if isImprove {
        assert 'I' as int + 2 == 'K' as int;
        assert CategoryName(c) + "2" == "Professionalism2";
      } else {
        assert 'B' as int + 2 == 'D' as int;
        assert CategoryName(c) + "" == "Professionalism";
      }
    case Conduct =>
      if isImprove {
        assert 'I' as int + 3 == 'L' as int;
        assert CategoryName(c) + "2" == "Conduct2";
      } else {
        assert 'B' as int + 3 == 'E' as int;
        assert CategoryName(c) + "" == "Conduct";
      }
    case Leadership =>
      if isImprove {
        assert 'I' as int + 4 == 'M' as int;
        assert CategoryName(c) + "2" == "Leadership2";
      } else {
        assert 'B' as int + 4 == 'F' as int;
        assert CategoryName(c) + "" == "Leadership";
      }
    case Other =>
      if isImprove {
        assert 'I' as int + 5 == 'N' as int;
        assert CategoryName(c) + "2" == "Other2";
      } else {
        assert 'B' as int + 5 == 'G' as int;
        assert CategoryName(c) + "" == "Other";
      }
  }

  /** A cell of a sheet: its column letter and its 1-based row. */
  datatype Cell = Cell(column: char, row: int)

  /** The part of `classification_model` that `set_classifications` changes: the Classification sheet. */
  class ClassificationModel {
    var classificationSheet: map<Cell, string>

    constructor ()
      ensures classificationSheet == map[]
    {
      classificationSheet := map[];
    }

    /**
     * `set_classifications`: marks the column of the classified category in the
     * given row with "TRUE"; nothing else in the sheet changes, and nothing at
     * all when no keyword matches.
     */
    method SetClassifications(isImprove: bool, row: int, text: string)
      modifies this
      ensures Classify(text).None? ==> classificationSheet == old(classificationSheet)
      ensures Classify(text).Some? ==>
        classificationSheet == old(classificationSheet)[Cell(Column(isImprove, Classify(text).value), row) := "TRUE"]
    {
      var t := Lower(text);
      var base := if isImprove then 'I' as int else 'B' as int;
      if Contains(t, Keyword(Other)) {
        classificationSheet := classificationSheet[Cell((base + 5) as char, row) := "TRUE"];
        return;
      }
      if Contains(t, Keyword(InterpersonalSkills)) {
        classificationSheet := classificationSheet[Cell(base as char, row) := "TRUE"];
        return;
      }
      if Contains(t, Keyword(IntrapersonalSkills)) {
        classificationSheet := classificationSheet[Cell((base + 1) as char, row) := "TRUE"];
        return;
      }
      if Contains(t, Keyword(Professionalism)) {
        classificationSheet := classificationSheet[Cell((base + 2) as char, row) := "TRUE"];
        return;
      }
      if Contains(t, Keyword(Conduct)) {
        classificationSheet := classificationSheet[Cell((base + 3) as char, row) := "TRUE"];
        return;
      }
      if Contains(t, Keyword(Leadership)) {
        classificationSheet := classificationSheet[Cell((base + 4) as char, row) := "TRUE"];
        return;
      }
    }
  }
}
