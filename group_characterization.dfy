/**
 * `CliqueSlides.characterize_group` (which feature tags dominate a group, or
 * are concentrated in it) and `CliqueSlides.get_dominant_nodes` (the group
 * members with the most incoming choices from inside the group).
 */
module GroupCharacterization {
  import opened Outcomes
  import opened DiGraphs
  import opened Sorting

  type Feature = string

  /**
   * `identifier_to_features`: each identifier's feature tags. The dict's
   * insertion order is `keys`.
   */
  datatype FeatureTable = FeatureTable(keys: seq<NodeId>, tags: map<NodeId, seq<Feature>>) {
    ghost predicate Valid() {
      && Distinct(keys)
      && (forall i :: 0 <= i < |keys| ==> keys[i] in tags)
      && (forall k :: k in tags ==> k in keys)
    }
  }

  /** `features_count[f] = [population, group]`: tag holders overall and in the group. */
  datatype Count = Count(population: nat, group: nat)

  /** One line of the description, with the exact fraction it reports as a percentage. */
  datatype Line =
    | Share(feature: Feature, fraction: real)          // "x% of the group are f"
    | Concentration(feature: Feature, fraction: real)  // "x% of all nodes with f feature are in this group"

  datatype Description =
    | NoGroup                  // `""` for an empty node list
    | NoDominant               // "No dominant features in this group"
    | Dominant(lines: seq<Line>)

  // ---------------------------------------------------------------------
  // Counting

  /** The tags of the listed identifiers, in order; an identifier without an entry adds none. */
  function TagsOf(ids: seq<NodeId>, tags: map<NodeId, seq<Feature>>): (r: seq<Feature>)
    ensures forall j, f :: 0 <= j < |ids| && ids[j] in tags && f in tags[ids[j]] ==> f in r
  {
    if ids == [] then []
    else
      var init := ids[..|ids| - 1];
      var last := ids[|ids| - 1];
      assert forall j :: 0 <= j < |init| ==> init[j] == ids[j];
      TagsOf(init, tags) + (if last in tags then tags[last] else [])
  }

  /** One more id of the list: its tags come after the others'. */
  lemma TagsOfTake(ids: seq<NodeId>, i: nat, tags: map<NodeId, seq<Feature>>)
    requires i < |ids|
    ensures TagsOf(ids[..i + 1], tags) == TagsOf(ids[..i], tags) + (if ids[i] in tags then tags[ids[i]] else [])
  {
    assert ids[..i + 1][..i] == ids[..i];
  }

  /** Every tag of the table, key by key: the order `features_count` is filled in. */
  function AllTags(t: FeatureTable): seq<Feature> {
    TagsOf(t.keys, t.tags)
  }

  function Occurrences(s: seq<Feature>, f: Feature): (r: nat)
    ensures r <= |s|
    ensures r > 0 <==> f in s
  {
    if s == [] then 0
    else
      assert f in s <==> f in s[..|s| - 1] || f == s[|s| - 1] by {
        assert s == s[..|s| - 1] + [s[|s| - 1]];
      }
      Occurrences(s[..|s| - 1], f) + (if s[|s| - 1] == f then 1 else 0)
  }

  /** Each tag once, at its first occurrence: the key order of `features_count`. */
  function FirstOccurrences(s: seq<Feature>): (r: seq<Feature>)
    ensures Distinct(r)
    ensures forall f :: f in r <==> f in s
  {
    if s == [] then []
    else
      var init := s[..|s| - 1];
      var rest := FirstOccurrences(init);
      assert forall f :: f in s <==> f in init || f == s[|s| - 1] by {
        assert s == init + [s[|s| - 1]];
      }
      if s[|s| - 1] in init then rest else rest + [s[|s| - 1]]
  }

  /** The counts after both counting passes, for every tag of the table. */
  ghost function Counted(t: FeatureTable, nodes: seq<NodeId>): map<Feature, Count> {
    map f | f in AllTags(t) :: Count(Occurrences(AllTags(t), f), Occurrences(TagsOf(nodes, t.tags), f))
  }

  /** The first pass has read the tags `seen`. */
  ghost predicate Tallied(seen: seq<Feature>, order: seq<Feature>, counts: map<Feature, Count>) {
    && order == FirstOccurrences(seen)
    && (forall f :: f in counts <==> f in seen)
    && (forall f :: f in counts ==> counts[f] == Count(Occurrences(seen, f), 0))
  }

  lemma TallyStep(seen: seq<Feature>, order: seq<Feature>, counts: map<Feature, Count>, f: Feature)
    requires Tallied(seen, order, counts)
    ensures f !in counts ==> Tallied(seen + [f], order + [f], counts[f := Count(1, 0)])
    ensures f in counts ==> Tallied(seen + [f], order, counts[f := Count(counts[f].population + 1, 0)])
  {
    var s := seen + [f];
    assert s[..|s| - 1] == seen;
    assert forall x :: x in s <==> x in seen || x == f;
  }

  /**
   * The first counting pass (lines 195-201): `features_count[f][0]` is the number
   * of occurrences of f among all tags, and the keys appear in first-occurrence order.
   */
  method CountPopulation(t: FeatureTable) returns (order: seq<Feature>, counts: map<Feature, Count>)
    requires t.Valid()
    ensures order == FirstOccurrences(AllTags(t))
    ensures forall f :: f in counts <==> f in AllTags(t)
    ensures forall f :: f in counts ==> counts[f] == Count(Occurrences(AllTags(t), f), 0)
  {
    order := [];
    counts := map[];
    var i := 0;
    while i < |t.keys|
      invariant 0 <= i <= |t.keys|
      invariant Tallied(TagsOf(t.keys[..i], t.tags), order, counts)
    {
      assert t.keys[i] in t.keys;
      assert t.keys[..i + 1][..i] == t.keys[..i];
      assert TagsOf(t.keys[..i + 1], t.tags) == TagsOf(t.keys[..i], t.tags) + t.tags[t.keys[i]];
      order, counts := TallyTags(TagsOf(t.keys[..i], t.tags), t.tags[t.keys[i]], order, counts);
      i := i + 1;
    }
    assert t.keys[..i] == t.keys;
  }

  /** The inner loop of the first pass: one identifier's tags. */
  method TallyTags(ghost seen: seq<Feature>, features: seq<Feature>, order0: seq<Feature>, counts0: map<Feature, Count>)
    returns (order: seq<Feature>, counts: map<Feature, Count>)
    requires Tallied(seen, order0, counts0)
    ensures Tallied(seen + features, order, counts)
  {
    order, counts := order0, counts0;
    assert seen + features[..0] == seen;
    var j := 0;
    while j < |features|
      invariant 0 <= j <= |features|
      invariant Tallied(seen + features[..j], order, counts)
    {
      var f := features[j];
      TallyStep(seen + features[..j], order, counts, f);
      AppendTake(seen, features, j);
      if f !in counts {
        counts := counts[f := Count(1, 0)];
        order := order + [f];
      } else {
        counts := counts[f := Count(counts[f].population + 1, 0)];
      }
      j := j + 1;
    }
    assert features[..j] == features;
  }

  /** The second pass has read the group tags `seen`; the population counts stay. */
  ghost predicate GroupTallied(t: FeatureTable, seen: seq<Feature>, counts: map<Feature, Count>) {
    && (forall f :: f in counts <==> f in AllTags(t))
    && (forall f :: f in counts ==> counts[f] == Count(Occurrences(AllTags(t), f), Occurrences(seen, f)))
  }

  lemma GroupStep(t: FeatureTable, seen: seq<Feature>, counts: map<Feature, Count>, f: Feature)
    requires GroupTallied(t, seen, counts) && f in counts
    ensures GroupTallied(t, seen + [f], counts[f := Count(counts[f].population, counts[f].group + 1)])
  {
    var s := seen + [f];
    assert s[..|s| - 1] == seen;
  }

  /** The inner loop of the second pass: one group member's tags. */
  method CountTags(t: FeatureTable, ghost seen: seq<Feature>, features: seq<Feature>, counts0: map<Feature, Count>)
    returns (counts: map<Feature, Count>)
    requires GroupTallied(t, seen, counts0)
    requires forall j :: 0 <= j < |features| ==> features[j] in AllTags(t)
    ensures GroupTallied(t, seen + features, counts)
  {
    counts := counts0;
    assert seen + features[..0] == seen;
    var j := 0;
    while j < |features|
      invariant 0 <= j <= |features|
      invariant GroupTallied(t, seen + features[..j], counts)
    {
      var f := features[j];
      GroupStep(t, seen + features[..j], counts, f);
      AppendTake(seen, features, j);
      counts := counts[f := Count(counts[f].population, counts[f].group + 1)];
      j := j + 1;
    }
    assert features[..j] == features;
  }

  /**
   * The second counting pass (lines 204-208): `features_count[f][1]` is the number
   * of occurrences of f among the tags of the group's nodes. Every such tag is
   * already a key, so the update never misses.
   */
  method CountGroup(t: FeatureTable, nodes: seq<NodeId>, counts0: map<Feature, Count>)
    returns (counts: map<Feature, Count>)
    requires t.Valid()
    requires GroupTallied(t, [], counts0)
    ensures counts == Counted(t, nodes)
  {
    counts := counts0;
    ghost var seen: seq<Feature> := [];
    var i := 0;
    while i < |nodes|
      invariant 0 <= i <= |nodes|
      invariant seen == TagsOf(nodes[..i], t.tags)
      invariant GroupTallied(t, seen, counts)
    {
      TagsOfTake(nodes, i, t.tags);
      if nodes[i] in t.tags {
        var features := t.tags[nodes[i]];
        assert forall j :: 0 <= j < |features| ==> features[j] in AllTags(t) by {
          var k :| 0 <= k < |t.keys| && t.keys[k] == nodes[i];
        }
        counts := CountTags(t, seen, features, counts);
        seen := seen + features;
      } else {
        assert seen + [] == seen;
      }
      i := i + 1;
    }
    assert nodes[..i] == nodes;
    forall f | f in counts ensures f in Counted(t, nodes) && counts[f] == Counted(t, nodes)[f] { }
    forall f | f in Counted(t, nodes) ensures f in counts { }
  }

  // ---------------------------------------------------------------------
  // The two checks

  function Max(a: real, b: real): real { if a >= b then a else b }
  function Min(a: real, b: real): real { if a <= b then a else b }

  /**
   * A tag is dominant when its share of the group reaches `feature_thresh`, or
   * 1.1 times its share of everyone (capped at 0.99) when that is higher.
   */
  predicate IsDominant(c: Count, total: nat, everyone: nat, th: real)
    requires total > 0 && everyone > 0
  {
    c.group as real / total as real >= Max(th, Min(0.99, 1.1 * c.population as real / everyone as real))
  }

  /** A tag is concentrated when more than `feature_thresh` of its holders are in the group. */
  predicate IsConcentrated(c: Count, th: real) {
    c.population > 0 && c.group as real / c.population as real > th
  }

  /** The lines one tag contributes (lines 213-217): both checks may fire. */
  function TagLines(f: Feature, c: Count, total: nat, everyone: nat, th: real): (r: seq<Line>)
    requires total > 0 && everyone > 0
    ensures Share(f, c.group as real / total as real) in r <==> IsDominant(c, total, everyone, th)
    ensures c.population > 0 ==>
      (Concentration(f, c.group as real / c.population as real) in r <==> IsConcentrated(c, th))
    ensures forall l :: l in r ==> l.feature == f
    ensures |r| <= 2
  {
    (if IsDominant(c, total, everyone, th) then [Share(f, c.group as real / total as real)] else [])
    + (if IsConcentrated(c, th) then [Concentration(f, c.group as real / c.population as real)] else [])
  }

  /** The lines of the tags `fs`, in order. */
  function Lines(fs: seq<Feature>, counts: map<Feature, Count>, total: nat, everyone: nat, th: real): (r: seq<Line>)
    requires forall j :: 0 <= j < |fs| ==> fs[j] in counts
    requires total > 0 && (fs != [] ==> everyone > 0)
  {
    if fs == [] then []
    else
      var init := fs[..|fs| - 1];
      var f := fs[|fs| - 1];
      assert forall j :: 0 <= j < |init| ==> init[j] == fs[j];
      Lines(init, counts, total, everyone, th) + TagLines(f, counts[f], total, everyone, th)
  }

  /** The description `characterize_group` returns, counted from the table. */
  ghost function Characterization(t: FeatureTable, nodes: seq<NodeId>, th: real): Description
  {
    if nodes == [] then NoGroup
    else
      var order := FirstOccurrences(AllTags(t));
      NonEmptyKeys(t);
      var lines := Lines(order, Counted(t, nodes), |nodes|, |t.keys|, th);
      if lines == [] then NoDominant else Dominant(lines)
  }

  lemma NonEmptyKeys(t: FeatureTable)
    ensures AllTags(t) != [] ==> |t.keys| > 0
  {
  }

  /** The lines of one more tag come after the others'. */
  lemma LinesTake(fs: seq<Feature>, counts: map<Feature, Count>, total: nat, everyone: nat, th: real, i: nat)
    requires forall j :: 0 <= j < |fs| ==> fs[j] in counts
    requires total > 0 && everyone > 0 && i < |fs|
    ensures Lines(fs[..i + 1], counts, total, everyone, th)
            == Lines(fs[..i], counts, total, everyone, th) + TagLines(fs[i], counts[fs[i]], total, everyone, th)
  {
    assert fs[..i + 1][..i] == fs[..i];
  }

  /** The description loop (lines 211-219), over the tags in dict order. */
  method Describe(order: seq<Feature>, counts: map<Feature, Count>, total: nat, everyone: nat, th: real)
    returns (lines: seq<Line>)
    requires forall j :: 0 <= j < |order| ==> order[j] in counts
    requires total > 0 && (order != [] ==> everyone > 0)
    ensures lines == Lines(order, counts, total, everyone, th)
  {
    lines := [];
    var i := 0;
    while i < |order|
      invariant 0 <= i <= |order|
      invariant lines == Lines(order[..i], counts, total, everyone, th)
    {
      var f := order[i];
      var c := counts[f];
      var share := if IsDominant(c, total, everyone, th) then [Share(f, c.group as real / total as real)] else [];
      var concentration :=
        if IsConcentrated(c, th) then [Concentration(f, c.group as real / c.population as real)] else [];
      LinesTake(order, counts, total, everyone, th, i);
      lines := lines + (share + concentration);
      i := i + 1;
    }
    assert order[..i] == order;
  }

  /** `characterize_group(nodes)` with `feature_thresh` th. */
  method CharacterizeGroup(t: FeatureTable, nodes: seq<NodeId>, th: real) returns (d: Description)
    requires t.Valid()
    ensures d == Characterization(t, nodes, th)
    ensures nodes == [] <==> d == NoGroup
  {
    if nodes == [] {
      return NoGroup;
    }
    var order, counts := CountPopulation(t);
    counts := CountGroup(t, nodes, counts);
    NonEmptyKeys(t);
    var lines := Describe(order, counts, |nodes|, |t.keys|, th);
    if lines == [] {
      d := NoDominant;
    } else {
      d := Dominant(lines);
    }
  }

  // ---------------------------------------------------------------------
  // What a description says

  lemma {:induction false} LinesMembers(fs: seq<Feature>, counts: map<Feature, Count>, total: nat, everyone: nat, th: real, l: Line)
    requires forall j :: 0 <= j < |fs| ==> fs[j] in counts
    requires total > 0 && (fs != [] ==> everyone > 0)
    ensures l in Lines(fs, counts, total, everyone, th) <==>
      exists j :: 0 <= j < |fs| && l in TagLines(fs[j], counts[fs[j]], total, everyone, th)
  {
    if fs != [] {
      var init := fs[..|fs| - 1];
      assert forall j :: 0 <= j < |init| ==> init[j] == fs[j];
      LinesMembers(init, counts, total, everyone, th, l);
    }
  }

  /**
   * A group's description has a share line for a tag exactly when the tag
   * occurs in the table and is dominant, with the tag's share of the group;
   * and a concentration line exactly when the tag is concentrated, with the
   * fraction of its holders in the group.
   */
  lemma CharacterizationLines(t: FeatureTable, nodes: seq<NodeId>, th: real, f: Feature)
    requires nodes != [] && f in AllTags(t)
    ensures |t.keys| > 0
    ensures var d := Characterization(t, nodes, th);
      var c := Count(Occurrences(AllTags(t), f), Occurrences(TagsOf(nodes, t.tags), f));
      && (IsDominant(c, |nodes|, |t.keys|, th) ==> d.Dominant? && Share(f, c.group as real / |nodes| as real) in d.lines)
      && (d.Dominant? && Share(f, c.group as real / |nodes| as real) in d.lines ==> IsDominant(c, |nodes|, |t.keys|, th))
      && (IsConcentrated(c, th) <==> d.Dominant? && Concentration(f, c.group as real / c.population as real) in d.lines)
  {
    NonEmptyKeys(t);
    var order := FirstOccurrences(AllTags(t));
    var counts := Counted(t, nodes);
    var c := counts[f];
    assert c == Count(Occurrences(AllTags(t), f), Occurrences(TagsOf(nodes, t.tags), f));
    assert c.population > 0;
    var k :| 0 <= k < |order| && order[k] == f;
    LinesOfTag(order, counts, |nodes|, |t.keys|, th, k, Share(f, c.group as real / |nodes| as real));
    LinesOfTag(order, counts, |nodes|, |t.keys|, th, k, Concentration(f, c.group as real / c.population as real));
  }

  /** A line about the tag at position k is among the lines of fs exactly when that tag's own checks give it. */
  lemma LinesOfTag(fs: seq<Feature>, counts: map<Feature, Count>, total: nat, everyone: nat, th: real, k: nat, l: Line)
    requires forall j :: 0 <= j < |fs| ==> fs[j] in counts
    requires total > 0 && everyone > 0 && k < |fs| && l.feature == fs[k]
    ensures l in Lines(fs, counts, total, everyone, th) <==> l in TagLines(fs[k], counts[fs[k]], total, everyone, th)
  {
    LinesMembers(fs, counts, total, everyone, th, l);
    if l in Lines(fs, counts, total, everyone, th) {
      var j :| 0 <= j < |fs| && l in TagLines(fs[j], counts[fs[j]], total, everyone, th);
      assert fs[j] == fs[k];
    }
  }

  /** "No dominant features" exactly when the group is non-empty and no tag passes either check. */
  lemma NoDominantExactly(t: FeatureTable, nodes: seq<NodeId>, th: real)
    requires nodes != []
    ensures |t.keys| > 0 || AllTags(t) == []
    ensures Characterization(t, nodes, th) == NoDominant <==>
      forall f :: f in AllTags(t) ==>
        var c := Count(Occurrences(AllTags(t), f), Occurrences(TagsOf(nodes, t.tags), f));
        !IsDominant(c, |nodes|, |t.keys|, th) && !IsConcentrated(c, th)
  {
    NonEmptyKeys(t);
    var order := FirstOccurrences(AllTags(t));
    var counts := Counted(t, nodes);
    var lines := Lines(order, counts, |nodes|, |t.keys|, th);
    if lines == [] {
      forall f | f in AllTags(t)
        ensures !IsDominant(counts[f], |nodes|, |t.keys|, th) && !IsConcentrated(counts[f], th)
      {
        CharacterizationLines(t, nodes, th, f);
      }
    } else {
      var l := lines[0];
      LinesMembers(order, counts, |nodes|, |t.keys|, th, l);
      var j :| 0 <= j < |order| && l in TagLines(order[j], counts[order[j]], |nodes|, |t.keys|, th);
      assert order[j] in AllTags(t);
    }
  }

  // ---------------------------------------------------------------------
  // Dominant nodes

  /** `key=in_degree, reverse=True`: higher in-degree first. */
  function MostChosenFirst(g: DiGraph): (le: (NodeId, NodeId) -> bool)
    ensures TotalPreorder(le)
    ensures forall a, b :: le(a, b) == (g.InDegree(a) >= g.InDegree(b))
  {
    (a: NodeId, b: NodeId) => g.InDegree(a) >= g.InDegree(b)
  }

  /** Python's `s[:k]`. */
  function PyPrefix<T>(s: seq<T>, k: int): (r: seq<T>)
    ensures r <= s
    ensures k >= 0 ==> |r| == if k <= |s| then k else |s|
    ensures k < 0 ==> |r| == if |s| + k >= 0 then |s| + k else 0
  {
    if k >= 0 then (if k <= |s| then s[..k] else s)
    else if |s| + k >= 0 then s[..|s| + k] else []
  }

  /** `sorted_nodes[:num_dominant_nodes]` for the group subgraph `g` whose nodes are listed in `order`. */
  function TopNodes(g: DiGraph, order: seq<NodeId>, k: int): seq<NodeId> {
    PyPrefix(Sort(order, MostChosenFirst(g)), k)
  }

  /**
   * At most `num_dominant_nodes` nodes of the group (for a non-negative count),
   * by non-increasing in-degree, none left out with a higher in-degree than one
   * kept, and nodes of equal in-degree in the group's own order.
   */
  lemma TopNodesOrder(g: DiGraph, order: seq<NodeId>, k: int, e: NodeId)
    ensures var top := TopNodes(g, order, k);
      && (k >= 0 ==> |top| == if k <= |order| then k else |order|)
      && multiset(top) <= multiset(order)
      && (forall i, j :: 0 <= i < j < |top| ==> g.InDegree(top[i]) >= g.InDegree(top[j]))
      && (forall i, x :: 0 <= i < |top| && x in multiset(order) - multiset(top) ==> g.InDegree(top[i]) >= g.InDegree(x))
      && Equivalents(top, e, MostChosenFirst(g)) <= Equivalents(order, e, MostChosenFirst(g))
  {
    var le := MostChosenFirst(g);
    var sorted := Sort(order, le);
    SortPermutes(order, le);
    var top := TopNodes(g, order, k);
    SortedPrefix(g, sorted, top);
    SortStable(order, e, le);
    PrefixEquivalents(sorted, top, e, le);
  }

  /** A prefix of a list sorted by decreasing in-degree: sorted itself, and above everything after it. */
  lemma SortedPrefix(g: DiGraph, sorted: seq<NodeId>, top: seq<NodeId>)
    requires top <= sorted && SortedBy(sorted, MostChosenFirst(g))
    ensures multiset(top) <= multiset(sorted)
    ensures forall i, j :: 0 <= i < j < |top| ==> g.InDegree(top[i]) >= g.InDegree(top[j])
    ensures forall i, x :: 0 <= i < |top| && x in multiset(sorted) - multiset(top) ==> g.InDegree(top[i]) >= g.InDegree(x)
  {
    var le := MostChosenFirst(g);
    assert sorted == top + sorted[|top|..];
    assert multiset(sorted) == multiset(top) + multiset(sorted[|top|..]);
    assert multiset(sorted) - multiset(top) == multiset(sorted[|top|..]);
    forall i, j | 0 <= i < j < |top| ensures g.InDegree(top[i]) >= g.InDegree(top[j]) {
      assert top[i] == sorted[i] && top[j] == sorted[j];
    }
    forall i, x | 0 <= i < |top| && x in multiset(sorted) - multiset(top) ensures g.InDegree(top[i]) >= g.InDegree(x) {
      var m :| 0 <= m < |sorted[|top|..]| && sorted[|top|..][m] == x;
      assert sorted[|top| + m] == x && top[i] == sorted[i];
      assert le(sorted[i], sorted[|top| + m]);
    }
  }

  /** `', '.join(names)`. */
  function Join(names: seq<string>): string {
    if names == [] then ""
    else if |names| == 1 then names[0]
    else names[0] + ", " + Join(names[1..])
  }

  function NameAll(nodes: seq<NodeId>, names: map<NodeId, string>): (r: Result<seq<string>>)
    ensures r.Ok? <==> forall j :: 0 <= j < |nodes| ==> nodes[j] in names
    ensures r.Ok? ==> |r.value| == |nodes| && forall j :: 0 <= j < |nodes| ==> r.value[j] == names[nodes[j]]
    ensures r.Err? ==> r.error == KeyError
  {
    if nodes == [] then Ok([])
    else if nodes[0] !in names then Err(KeyError)
    else
      var rest :- NameAll(nodes[1..], names);
      assert forall j :: 0 < j < |nodes| ==> nodes[j] == nodes[1..][j - 1];
      Ok([names[nodes[0]]] + rest)
  }

  /**
   * `get_dominant_nodes`: the names of the top nodes joined by ", "; a top node
   * without a name is a `KeyError`.
   */
  function DominantNodes(g: DiGraph, order: seq<NodeId>, k: int, names: map<NodeId, string>): (r: Result<string>)
    ensures r.Ok? <==> forall x :: x in TopNodes(g, order, k) ==> x in names
    ensures r.Err? ==> r.error == KeyError
  {
    var top := TopNodes(g, order, k);
    match NameAll(top, names)
    case Ok(ns) => Ok(Join(ns))
    case Err(e) =>
      assert exists j :: 0 <= j < |top| && top[j] !in names;
      Err(e)
  }
}
