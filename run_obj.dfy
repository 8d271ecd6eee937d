/**
 * The pipeline object of the feedback report: which stages run again after a
 * restart (`start_task`), and the per-cadet stage that can resume from a named
 * cadet (`start_cadet`).
 */
module Pipeline {
  import opened Outcomes
  import TextHelpers

  /** One cadet's block of comments: the name in its first row and the number of rows. */
  datatype Person = Person(name: string, rows: nat)

  /** The persons the per-cadet loop handles: all without a start cadet, else those from its first appearance on. */
  function ToProcess(persons: seq<Person>, startCadet: Option<string>): seq<Person> {
    match startCadet
    case None => persons
    case Some(c) => FromFirst(persons, c)
  }

  /** The suffix starting at the first person named c; empty when nobody is. */
  function FromFirst(persons: seq<Person>, c: string): seq<Person> {
    if persons == [] then []
    else if persons[0].name == c then persons
    else FromFirst(persons[1..], c)
  }

  /**
   * The resume rule: nobody before the first person named c is handled,
   * everyone from there on is, and nobody at all when no person is named c.
   */
  lemma {:induction false} FromFirstMeaning(persons: seq<Person>, c: string)
    ensures (forall i :: 0 <= i < |persons| ==> persons[i].name != c) ==> FromFirst(persons, c) == []
    ensures forall k :: 0 <= k < |persons| && persons[k].name == c && (forall i :: 0 <= i < k ==> persons[i].name != c) ==>
      FromFirst(persons, c) == persons[k..]
  {
    if persons != [] {
      FromFirstMeaning(persons[1..], c);
      forall k | 0 <= k < |persons| && persons[k].name == c && (forall i :: 0 <= i < k ==> persons[i].name != c)
        ensures FromFirst(persons, c) == persons[k..]
      {
        if k > 0 {
          assert persons[1..][k - 1..] == persons[k..];
          assert forall i :: 0 <= i < k - 1 ==> persons[1..][i].name != c by {
            forall i | 0 <= i < k - 1 ensures persons[1..][i].name != c {
              assert persons[1..][i] == persons[i + 1];
            }
          }
        }
      }
      if forall i :: 0 <= i < |persons| ==> persons[i].name != c {
        assert persons[0].name != c;
        assert forall i :: 0 <= i < |persons[1..]| ==> persons[1..][i].name != c by {
          forall i | 0 <= i < |persons[1..]| ensures persons[1..][i].name != c {
            assert persons[1..][i] == persons[i + 1];
          }
        }
      }
    }
  }

  /** `s.replace('"', '').replace("'", '')`. */
  function StripQuotes(s: string): string {
    TextHelpers.Replace(TextHelpers.Replace(s, '"', ""), '\'', "")
  }

  /** Characters other than the quotes, in order. */
  function Unquoted(s: string): string {
    if s == [] then [] else (if s[0] == '"' || s[0] == '\'' then [] else [s[0]]) + Unquoted(s[1..])
  }

  /** The file title keeps every character but the two quotes, in order. */
  lemma {:induction false} StripQuotesMeaning(s: string)
    ensures StripQuotes(s) == Unquoted(s)
    ensures forall i :: 0 <= i < |StripQuotes(s)| ==> StripQuotes(s)[i] != '"' && StripQuotes(s)[i] != '\''
  {
    UnquotedHasNoQuotes(s);
    if s != [] {
      StripQuotesMeaning(s[1..]);
      var h := if s[0] == '"' then "" else [s[0]];
      TextHelpers.ReplaceAppend([s[0]], s[1..], '"', "");
      assert s == [s[0]] + s[1..];
      TextHelpers.ReplaceAppend(h, TextHelpers.Replace(s[1..], '"', ""), '\'', "");
    }
  }

  lemma {:induction false} UnquotedHasNoQuotes(s: string)
    ensures forall i :: 0 <= i < |Unquoted(s)| ==> Unquoted(s)[i] != '"' && Unquoted(s)[i] != '\''
  {
    if s != [] {
      UnquotedHasNoQuotes(s[1..]);
    }
  }

  /** `os.path.join(raw_data_dir, f"{name} (N={N}).xlsx")` with the quotes removed. */
  function FileTitle(dir: string, p: Person): string {
    StripQuotes(dir + "/" + p.name + " (N=" + TextHelpers.Decimal(p.rows) + ").xlsx")
  }

  /** The files the loop writes, in order. */
  function Titles(dir: string, ps: seq<Person>): (r: seq<string>)
    ensures |r| == |ps|
  {
    if ps == [] then [] else Titles(dir, ps[..|ps| - 1]) + [FileTitle(dir, ps[|ps| - 1])]
  }

  /** The i-th file written is the file of the i-th handled person. */
  lemma {:induction false} TitlesMeaning(dir: string, ps: seq<Person>)
    ensures forall i :: 0 <= i < |ps| ==> Titles(dir, ps)[i] == FileTitle(dir, ps[i])
  {
    if ps != [] {
      var front := ps[..|ps| - 1];
      TitlesMeaning(dir, front);
      forall i | 0 <= i < |ps| - 1
        ensures Titles(dir, ps)[i] == FileTitle(dir, ps[i])
      {
        assert front[i] == ps[i];
      }
    }
  }

  /** `name_to_classification` after the loop: each handled name mapped to the file its classification ran on; a later person of the same name wins. */
  function Classified(dir: string, ps: seq<Person>): map<string, string> {
    if ps == [] then map[]
    else Classified(dir, ps[..|ps| - 1])[ps[|ps| - 1].name := FileTitle(dir, ps[|ps| - 1])]
  }

  /** Every handled name has an entry, and no other name has one. */
  lemma {:induction false} ClassifiedKeys(dir: string, ps: seq<Person>)
    ensures forall k :: 0 <= k < |ps| ==> ps[k].name in Classified(dir, ps)
    ensures forall n :: n in Classified(dir, ps) ==> exists k :: 0 <= k < |ps| && ps[k].name == n
  {
    if ps != [] {
      var front := ps[..|ps| - 1];
      ClassifiedKeys(dir, front);
      var m := Classified(dir, ps);
      forall n | n in m
        ensures exists k :: 0 <= k < |ps| && ps[k].name == n
      {
        if n != ps[|ps| - 1].name {
          assert n in Classified(dir, front);
          var k :| 0 <= k < |front| && front[k].name == n;
          assert ps[k].name == n;
        }
      }
      forall k | 0 <= k < |ps| - 1
        ensures ps[k].name in m
      {
        assert front[k] == ps[k];
      }
    }
  }

  /** A name's entry is the file of the last person of that name. */
  lemma {:induction false} ClassifiedLast(dir: string, ps: seq<Person>, k: nat)
    requires k < |ps| && forall j :: k < j < |ps| ==> ps[j].name != ps[k].name
    ensures ps[k].name in Classified(dir, ps) && Classified(dir, ps)[ps[k].name] == FileTitle(dir, ps[k])
  {
    if k < |ps| - 1 {
      var front := ps[..|ps| - 1];
      assert front[k] == ps[k];
      forall j | k < j < |front|
        ensures front[j].name != front[k].name
      {
        assert front[j] == ps[j];
      }
      ClassifiedLast(dir, front, k);
    }
  }

  /** One step of the skip loop at person i: the suffix starts here or further on. */
  lemma SkipStep(persons: seq<Person>, i: nat, c: string)
    requires i < |persons|
    ensures persons[i].name == c ==> FromFirst(persons[i..], c) == [] + persons[i..]
    ensures persons[i].name != c ==> FromFirst(persons[i..], c) == FromFirst(persons[i + 1..], c)
  {
    assert persons[i..][1..] == persons[i + 1..];
  }

  /** One handled person: the accumulated lists grow by exactly that person. */
  lemma TakeStep(dir: string, done: seq<Person>, p: Person, persons: seq<Person>, i: nat)
    requires i < |persons| && persons[i] == p
    ensures done + persons[i..] == (done + [p]) + persons[i + 1..]
    ensures Titles(dir, done + [p]) == Titles(dir, done) + [FileTitle(dir, p)]
    ensures Classified(dir, done + [p]) == Classified(dir, done)[p.name := FileTitle(dir, p)]
  {
    assert persons[i..] == [p] + persons[i + 1..];
    assert (done + [p])[..|done|] == done;
  }

  /**
   * The loop of `create_individual_excel` without the object around it: skip
   * persons until the start cadet appears, then title each file and record its
   * classification.
   */
  method ProcessPersons(dir: string, persons: seq<Person>, startCadet: Option<string>)
    returns (written: seq<string>, classified: map<string, string>)
    ensures written == Titles(dir, ToProcess(persons, startCadet))
    ensures classified == Classified(dir, ToProcess(persons, startCadet))
  {
    written, classified := [], map[];
    var reachedTargetCadet := startCadet.None?;
    ghost var todo := ToProcess(persons, startCadet);
    ghost var done: seq<Person> := [];
    var i := 0;
    while i < |persons|
      invariant 0 <= i <= |persons|
      invariant !reachedTargetCadet ==> startCadet.Some? && done == [] && todo == FromFirst(persons[i..], startCadet.value)
      invariant reachedTargetCadet ==> todo == done + persons[i..]
      invariant written == Titles(dir, done)
      invariant classified == Classified(dir, done)
    {
      var p := persons[i];
      if !reachedTargetCadet {
        SkipStep(persons, i, startCadet.value);
        reachedTargetCadet := p.name == startCadet.value;
      }
      if reachedTargetCadet {
        var title := FileTitle(dir, p);
        TakeStep(dir, done, p, persons, i);
        written := written + [title];
        classified := classified[p.name := title];
        done := done + [p];
      }
      i := i + 1;
    }
    assert persons[i..] == [];
    assert done + persons[i..] == done;
  }

  class SocioAndSagabz {
    var startTask: Option<string>
    var startCadet: Option<string>
    var outputsPath: string
    var combineExcels: bool
    var splitExcels: bool
    var runStatistics: bool
    /** The files written by the per-cadet stage (Excel export, an outside effect), in order. */
    var exported: seq<string>
    var nameToClassification: map<string, string>

    /** An earlier stage is redone only if every later one is. */
    predicate Valid()
      reads this
    {
      (combineExcels ==> splitExcels) && (splitExcels ==> runStatistics)
    }

    function RawDataDir(): string
      reads this
    {
      outputsPath + "/raw_data"
    }

    constructor (outputsPath: string, startTask: Option<string>, startCadet: Option<string>)
      ensures this.startTask == startTask && this.startCadet == startCadet && this.outputsPath == outputsPath
      ensures startTask.None? ==> combineExcels && splitExcels && runStatistics
      ensures startTask == Some("split_excel") ==> !combineExcels && splitExcels && runStatistics
      ensures startTask == Some("statistics") ==> !combineExcels && !splitExcels && runStatistics
      ensures startTask.Some? && startTask.value != "split_excel" && startTask.value != "statistics" ==>
        !combineExcels && !splitExcels && !runStatistics
      ensures Valid()
      ensures exported == [] && nameToClassification == map[]
    {
      this.startTask := startTask;
      this.startCadet := startCadet;
      this.outputsPath := outputsPath;
      combineExcels, splitExcels, runStatistics := true, true, true;
      exported, nameToClassification := [], map[];
      new;
      AnalyzeStartTask();
    }

    /** `analyze_start_task`: each named later task switches off one more of the earlier stages. */
    method AnalyzeStartTask()
      modifies this
      ensures startTask == old(startTask) && startCadet == old(startCadet) && outputsPath == old(outputsPath)
      ensures exported == old(exported) && nameToClassification == old(nameToClassification)
      ensures startTask.None? ==>
        combineExcels == old(combineExcels) && splitExcels == old(splitExcels) && runStatistics == old(runStatistics)
      ensures startTask == Some("split_excel") ==>
        !combineExcels && splitExcels == old(splitExcels) && runStatistics == old(runStatistics)
      ensures startTask == Some("statistics") ==>
        !combineExcels && !splitExcels && runStatistics == old(runStatistics)
      ensures startTask.Some? && startTask.value != "split_excel" && startTask.value != "statistics" ==>
        !combineExcels && !splitExcels && !runStatistics
      ensures old(Valid()) ==> Valid()
    {
      if startTask.None? {
        return;
      }
      combineExcels := false;
      if startTask.value == "split_excel" {
        return;
      }
      splitExcels := false;
      if startTask.value == "statistics" {
        return;
      }
      runStatistics := false;
    }

    /**
     * The resume loop of `create_individual_excel`: skip persons until the start
     * cadet appears, then write each file (when splitting) and classify it.
     */
    method CreateIndividualExcel(persons: seq<Person>)
      modifies this
      ensures startTask == old(startTask) && startCadet == old(startCadet) && outputsPath == old(outputsPath)
      ensures combineExcels == old(combineExcels) && splitExcels == old(splitExcels) && runStatistics == old(runStatistics)
      ensures exported == old(exported) + (if splitExcels then Titles(RawDataDir(), ToProcess(persons, startCadet)) else [])
      ensures nameToClassification == Classified(RawDataDir(), ToProcess(persons, startCadet))
    {
      var dir := RawDataDir();
      var written, classified := ProcessPersons(dir, persons, startCadet);
      if splitExcels {
        exported := exported + written;
      }
      nameToClassification := classified;
    }

    /** The start cadet handed to word creation: only when restarting at 'word_build'. */
    function WordStartCadet(): (r: Option<string>)
      reads this
      ensures r.Some? <==> startTask == Some("word_build") && startCadet.Some?
      ensures r.Some? ==> r == startCadet
    {
      if startTask == Some("word_build") && startCadet.Some? then startCadet else None
    }
  }
}
