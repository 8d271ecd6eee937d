/**
 * The string helpers of the report writer: right-to-left punctuation marks,
 * sentence prefix and ending, the reversible name obfuscation and the sigma label.
 */
module TextHelpers {
  import opened Outcomes

  /** A Python value that the helpers test with `isinstance(x, str)`. */
  datatype PyValue =
    | Str(text: string)
    | NotStr(code: int)   // any other object (a number, NaN, None), known only by identity

  const RLM: char := '‏'   // right-to-left mark
  const RLE: char := '‫'   // right-to-left embedding
  const PDF: char := '‬'   // pop directional formatting

  /** The characters `fix_rtl_symbols` surrounds with right-to-left marks, in the order it treats them. */
  const Marked: seq<char> := [',', '.', '"', '\\', '-', ':', ';', '(', ')']

  function Wrap(c: char): string {
    [RLM, c, RLM]
  }

  // ---------------------------------------------------------------------
  // fix_rtl_symbols

  /** `s.replace(c, rep)` for a single character c. */
  function Replace(s: string, c: char, rep: string): (r: string)
  {
    if s == [] then []
    else (if s[0] == c then rep else [s[0]]) + Replace(s[1..], c, rep)
  }

  lemma {:induction false} ReplaceAppend(a: string, b: string, c: char, rep: string)
    ensures Replace(a + b, c, rep) == Replace(a, c, rep) + Replace(b, c, rep)
  {
    if a != [] {
      assert (a + b)[1..] == a[1..] + b;
      ReplaceAppend(a[1..], b, c, rep);
    } else {
      assert a + b == b;
    }
  }

  /** Every character of `s` that is in `marks` wrapped in right-to-left marks, the others kept. */
  function Escape(s: string, marks: set<char>): (r: string)
    ensures |r| == |s| + 2 * CountIn(s, marks)
  {
    if s == [] then []
    else (if s[0] in marks then Wrap(s[0]) else [s[0]]) + Escape(s[1..], marks)
  }

  function CountIn(s: string, marks: set<char>): nat {
    if s == [] then 0 else (if s[0] in marks then 1 else 0) + CountIn(s[1..], marks)
  }

  /** One more replace extends the escaped set by its character. */
  lemma {:induction false} ReplaceEscape(s: string, marks: set<char>, c: char)
    requires c !in marks && c != RLM
    ensures Replace(Escape(s, marks), c, Wrap(c)) == Escape(s, marks + {c})
  {
    if s != [] {
      var head := if s[0] in marks then Wrap(s[0]) else [s[0]];
      ReplaceAppend(head, Escape(s[1..], marks), c, Wrap(c));
      ReplaceEscape(s[1..], marks, c);
      if s[0] in marks {
        assert Replace(head, c, Wrap(c)) == head by {
          assert head == [RLM] + ([s[0]] + [RLM]);
          ReplaceAppend([RLM], [s[0]] + [RLM], c, Wrap(c));
          ReplaceAppend([s[0]], [RLM], c, Wrap(c));
        }
      } else {
        assert Replace(head, c, Wrap(c)) == if s[0] == c then Wrap(c) else head;
      }
    }
  }

  /** Escaping depends only on which characters are marks. */
  lemma {:induction false} EscapeSameMarks(s: string, m1: set<char>, m2: set<char>)
    requires forall c :: c in m1 <==> c in m2
    ensures Escape(s, m1) == Escape(s, m2)
  {
    if s != [] {
      EscapeSameMarks(s[1..], m1, m2);
    }
  }

  lemma {:induction false} EscapeNothing(s: string)
    ensures Escape(s, {}) == s
  {
    if s != [] {
      EscapeNothing(s[1..]);
    }
  }

  /** The nine `replace` calls in order (lines 46-54). */
  function ReplaceAll(s: string, cs: seq<char>): string
    decreases |cs|
  {
    if cs == [] then s else ReplaceAll(Replace(s, cs[0], Wrap(cs[0])), cs[1..])
  }

  /** The characters of a list, as a set. */
  function CharSet(cs: seq<char>): (r: set<char>)
    ensures forall c :: c in r <==> c in cs
  {
    if cs == [] then {}
    else
      assert forall c :: c in cs <==> c == cs[0] || c in cs[1..] by {
        assert cs == [cs[0]] + cs[1..];
      }
      {cs[0]} + CharSet(cs[1..])
  }

  /** The characters to mark are distinct, not yet marked, and none is the mark itself. */
  predicate Escapable(marks: set<char>, cs: seq<char>) {
    && RLM !in marks
    && (forall i :: 0 <= i < |cs| ==> cs[i] != RLM && cs[i] !in marks)
    && (forall i, j :: 0 <= i < j < |cs| ==> cs[i] != cs[j])
  }

  /**
   * The replace chain is one pass over the sentence: a later replace never sees a
   * character an earlier one inserted, because the marks and the characters differ.
   */
  lemma {:induction false} ReplaceAllEscapes(s: string, marks: set<char>, cs: seq<char>)
    requires Escapable(marks, cs)
    ensures ReplaceAll(Escape(s, marks), cs) == Escape(s, marks + CharSet(cs))
    decreases |cs|
  {
    if cs == [] {
      assert marks + {} == marks;
    } else {
      ReplaceEscape(s, marks, cs[0]);
      ReplaceAllEscapes(s, marks + {cs[0]}, cs[1..]);
      assert marks + {cs[0]} + CharSet(cs[1..]) == marks + CharSet(cs);
    }
  }

  function MarkedSet(): (m: set<char>)
    ensures forall c :: c in m <==> c in Marked
  {
    CharSet(Marked)
  }

  lemma MarkedDistinct()
    ensures Escapable({}, Marked)
  {
  }

  lemma MarkedEscape(s: string)
    ensures ReplaceAll(s, Marked) == Escape(s, MarkedSet())
  {
    MarkedDistinct();
    ReplaceAllEscapes(s, {}, Marked);
    EscapeNothing(s);
    EscapeSameMarks(s, {} + CharSet(Marked), MarkedSet());
  }

  /** `fix_rtl_symbols`: non-strings unchanged; strings marked and wrapped. */
  function FixRtlSymbols(v: PyValue): (r: PyValue)
  {
    match v
    case NotStr(_) => v
    case Str(s) => Str([RLE] + ReplaceAll(s, Marked) + [PDF])
  }

  /**
   * A string comes back enclosed in RLE ... PDF, with each of `, . " \ - : ; ( )`
   * between two RLMs and every other character as it was: n + 2 + 2k characters
   * for k marked ones.
   */
  lemma FixRtlShape(v: PyValue)
    ensures !v.Str? ==> FixRtlSymbols(v) == v
    ensures v.Str? ==> FixRtlSymbols(v) == Str([RLE] + Escape(v.text, MarkedSet()) + [PDF])
    ensures v.Str? ==> |FixRtlSymbols(v).text| == |v.text| + 2 + 2 * CountIn(v.text, MarkedSet())
  {
    if v.Str? {
      MarkedEscape(v.text);
    }
  }

  // ---------------------------------------------------------------------
  // add_in_the_beginning and ensure_ends_with

  /** `add_in_the_beginning`: prefix `add_on` unless the first character already is it; `""[0]` is an `IndexError`. */
  function AddInTheBeginning(v: PyValue, addOn: string): (r: Result<PyValue>)
    ensures r.Err? <==> v == Str("")
    ensures r.Err? ==> r.error == IndexError
    ensures r.Ok? && v.Str? ==> r.value.Str? && (r.value.text == v.text || r.value.text == addOn + v.text)
    ensures r.Ok? && v.Str? ==> (r.value.text == addOn + v.text <==> [v.text[0]] != addOn) || addOn == []
    ensures !v.Str? ==> r == Ok(v)
  {
    match v
    case NotStr(_) => Ok(v)
    case Str(s) =>
      if s == [] then Err(IndexError)
      else if [s[0]] != addOn then Ok(Str(addOn + s))
      else Ok(v)
  }

  /** With a one-character `add_on`, a second call changes nothing. */
  lemma AddInTheBeginningIdempotent(v: PyValue, addOn: string)
    requires |addOn| == 1 && AddInTheBeginning(v, addOn).Ok?
    ensures AddInTheBeginning(AddInTheBeginning(v, addOn).value, addOn) == AddInTheBeginning(v, addOn)
  {
    var w := AddInTheBeginning(v, addOn).value;
    if v.Str? && w.text == addOn + v.text {
      assert w.text[0] == addOn[0];
      assert [w.text[0]] == addOn;
    }
  }

  /** A longer `add_on` is never equal to one character, so it is added on every call. */
  lemma AddInTheBeginningLonger(s: string, addOn: string)
    requires |addOn| >= 2 && s != []
    ensures AddInTheBeginning(Str(s), addOn) == Ok(Str(addOn + s))
  {
    assert |[s[0]]| != |addOn|;
  }

  /**
   * `ensure_ends_with` (lines 67-74): one trailing space dropped, `add_on`
   * appended unless the last character already is it, then `fix_rtl_symbols`.
   * An empty sentence, or a single space, is an `IndexError`.
   */
  function EnsureEndsWith(v: PyValue, addOn: string): (r: Result<PyValue>)
    ensures r.Err? <==> v == Str("") || v == Str(" ")
    ensures r.Err? ==> r.error == IndexError
    ensures !v.Str? ==> r == Ok(v)
  {
    match v
    case NotStr(_) => Ok(FixRtlSymbols(v))
    case Str(s) =>
      if s == [] then Err(IndexError)
      else
        var t := if s[|s| - 1] == ' ' then s[..|s| - 1] else s;
        if t == [] then
          assert |s| == 1 && s == [s[0]];
          Err(IndexError)
        else
          var u := if [t[|t| - 1]] != addOn then t + addOn else t;
          Ok(FixRtlSymbols(Str(u)))
  }

  /** The sentence `ensure_ends_with` marks, before `fix_rtl_symbols`. */
  function EndedSentence(s: string, addOn: string): string
    requires s != [] && s != " "
  {
    var t := if s[|s| - 1] == ' ' then s[..|s| - 1] else s;
    if [t[|t| - 1]] != addOn then t + addOn else t
  }

  /**
   * The marked sentence is the input without one trailing space, followed by
   * `add_on` unless it already ended with it; for a one-character `add_on` it
   * then ends with `add_on`, and a second call adds nothing more.
   */
  lemma EnsureEndsWithShape(s: string, addOn: string)
    requires s != [] && s != " "
    ensures var t := if s[|s| - 1] == ' ' then s[..|s| - 1] else s;
      var u := EndedSentence(s, addOn);
      && EnsureEndsWith(Str(s), addOn) == Ok(FixRtlSymbols(Str(u)))
      && (u == t || u == t + addOn)
      && (|addOn| == 1 ==> u[|u| - 1] == addOn[0])
      && (|addOn| == 1 && addOn != " " ==> EndedSentence(u, addOn) == u)
  {
    NotOnlySpace(s);
    var t := if s[|s| - 1] == ' ' then s[..|s| - 1] else s;
    assert t != [];
    var u := EndedSentence(s, addOn);
    assert u == if [t[|t| - 1]] != addOn then t + addOn else t;
    assert EnsureEndsWith(Str(s), addOn) == Ok(FixRtlSymbols(Str(u)));
    EndedSentenceShape(s, addOn);
  }

  lemma NotOnlySpace(s: string)
    requires s != [] && s != " "
    ensures s[|s| - 1] == ' ' ==> s[..|s| - 1] != []
  {
  }

  /** The string facts behind `EnsureEndsWithShape`, apart from the call to `fix_rtl_symbols`. */
  lemma EndedSentenceShape(s: string, addOn: string)
    requires s != [] && s != " "
    ensures var t := if s[|s| - 1] == ' ' then s[..|s| - 1] else s;
      var u := EndedSentence(s, addOn);
      && (u == t || u == t + addOn)
      && (|addOn| == 1 ==> u[|u| - 1] == addOn[0])
      && (|addOn| == 1 && addOn != " " ==> EndedSentence(u, addOn) == u)
  {
    var t := if s[|s| - 1] == ' ' then s[..|s| - 1] else s;
    NotOnlySpace(s);
    var u := EndedSentence(s, addOn);
    if |addOn| == 1 {
      if [t[|t| - 1]] != addOn {
        assert u[|u| - 1] == addOn[0];
      } else {
        assert t[|t| - 1] == addOn[0];
      }
      if addOn != " " {
        assert u[|u| - 1] != ' ';
        assert [u[|u| - 1]] == addOn;
      }
    }
  }

  // ---------------------------------------------------------------------
  // my_hash and dehash on Python code points

  /** Python's `chr` accepts 0 ..= 0x10FFFF and raises `ValueError` otherwise. */
  predicate IsCodePoint(x: int) {
    0 <= x <= 0x10FFFF
  }

  /** `[chr(ord(c) + sign * (i % 5)) for i, c in enumerate(s)]`; a code point out of range is a `ValueError`. */
  function Shift(s: seq<int>, sign: int): (r: Result<seq<int>>)
    requires sign == 1 || sign == -1
    ensures r.Ok? <==> forall i :: 0 <= i < |s| ==> IsCodePoint(s[i] + sign * (i % 5))
    ensures r.Ok? ==> |r.value| == |s| && forall i :: 0 <= i < |s| ==> r.value[i] == s[i] + sign * (i % 5)
    ensures r.Err? ==> r.error == ValueError
  {
    if forall i :: 0 <= i < |s| ==> IsCodePoint(s[i] + sign * (i % 5)) then
      Ok(seq(|s|, i => if 0 <= i < |s| then s[i] + sign * (i % 5) else 0))
    else Err(ValueError)
  }

  /** `Docx_helper.my_hash`: character i moves up by i mod 5. */
  function MyHash(s: seq<int>): (r: Result<seq<int>>)
    ensures r.Ok? <==> forall i :: 0 <= i < |s| ==> IsCodePoint(s[i] + i % 5)
    ensures r.Ok? ==> |r.value| == |s| && forall i :: 0 <= i < |s| ==> r.value[i] == s[i] + i % 5
  {
    Shift(s, 1)
  }

  /** `Docx_helper.dehash`: character i moves down by i mod 5. */
  function Dehash(s: seq<int>): (r: Result<seq<int>>)
    ensures r.Ok? <==> forall i :: 0 <= i < |s| ==> IsCodePoint(s[i] - i % 5)
    ensures r.Ok? ==> |r.value| == |s| && forall i :: 0 <= i < |s| ==> r.value[i] == s[i] - i % 5
  {
    Shift(s, -1)
  }

  /** Dehashing a hashed string of code points always succeeds and gives it back. */
  lemma HashRoundTrip(s: seq<int>)
    requires forall i :: 0 <= i < |s| ==> IsCodePoint(s[i])
    requires MyHash(s).Ok?
    ensures Dehash(MyHash(s).value) == Ok(s)
  {
    var h := MyHash(s).value;
    assert forall i :: 0 <= i < |h| ==> h[i] - i % 5 == s[i];
    var d := Dehash(h);
    assert d.Ok?;
    assert d.value == s;
  }

  /** Hashing fails only near the top of the code-point range. */
  lemma HashDefinedBelowTop(s: seq<int>)
    requires forall i :: 0 <= i < |s| ==> 0 <= s[i] <= 0x10FFFF - 4
    ensures MyHash(s).Ok?
  {
  }

  // ---------------------------------------------------------------------
  // sigma_text

  const BigLabel: string := "sigma is top 15% (big)"
  const SmallLabel: string := "sigma is lowest 15% (small)"
  const AverageLabel: string := "sigma value is average"

  /** `sigma_text`: the category's (small, big) thresholds from `SIGMAS`; an unknown category is a `KeyError`. */
  function SigmaText(sigma: real, thresholds: map<string, (real, real)>, category: string): (r: Result<string>)
    ensures r.Ok? <==> category in thresholds
    ensures r.Err? ==> r.error == KeyError
    ensures r.Ok? ==> r.value in {BigLabel, SmallLabel, AverageLabel}
    ensures r.Ok? ==> (r.value == BigLabel <==> sigma > thresholds[category].1)
    ensures r.Ok? ==> (r.value == SmallLabel <==> sigma <= thresholds[category].1 && sigma < thresholds[category].0)
    ensures r.Ok? ==> (r.value == AverageLabel <==> thresholds[category].0 <= sigma <= thresholds[category].1)
  {
    if category !in thresholds then Err(KeyError)
    else
      var (small, big) := thresholds[category];
      if sigma > big then Ok(BigLabel)
      else if sigma < small then Ok(SmallLabel)
      else Ok(AverageLabel)
  }

  // ---------------------------------------------------------------------
  // str() of an int

  function Digit(d: nat): char
    requires d < 10
  {
    "0123456789"[d]
  }

  function Digits(x: nat): string
    decreases x
  {
    if x < 10 then [Digit(x)] else Digits(x / 10) + [Digit(x % 10)]
  }

  /** Python's `str` of an int. */
  function Decimal(x: int): string {
    if x < 0 then "-" + Digits(-x) else Digits(x)
  }
}
