/**
 * The report aggregator: from already-parsed cucumber JSON reports (one per CI
 * shard) it extracts the scenarios that have a failed step, keeps the first
 * record for each scenario id, and orders the records by (uri, line).
 */
module Reports {
  import opened Text

  /** A step's `result` object; an absent key is `None`, an absent result object has both `None`. */
  datatype Step = Step(status: Option<string>, errorMessage: Option<string>)

  /** An entry of a feature's `elements`; `kind` is its `type` key. */
  datatype Element = Element(kind: Option<string>, line: int, name: string, id: string, steps: seq<Step>)

  /** A feature record; an absent `elements` key is the empty sequence. */
  datatype Feature = Feature(uri: Option<string>, elements: seq<Element>)

  /** The contents of one report file. */
  type Report = seq<Feature>

  /** One failing scenario, as collected by the aggregator. */
  datatype Failure = Failure(uri: string, line: int, name: string, id: string, error: string)

  const UnknownError: string := "Unknown error"

  predicate IsFailedStep(s: Step) {
    s.status == Some("failed")
  }

  /** `k` is the first step whose status is "failed". */
  predicate IsFirstFailed(steps: seq<Step>, k: int) {
    && 0 <= k < |steps|
    && IsFailedStep(steps[k])
    && forall j :: 0 <= j < k ==> !IsFailedStep(steps[j])
  }

  function FirstFailedStep(steps: seq<Step>): (r: Option<nat>)
    ensures r.Some? ==> IsFirstFailed(steps, r.value)
    ensures r.None? ==> forall j :: 0 <= j < |steps| ==> !IsFailedStep(steps[j])
  {
    if steps == [] then None
    else if IsFailedStep(steps[0]) then Some(0)
    else match FirstFailedStep(steps[1..])
      case None => None
      case Some(k) => Some(k + 1)
  }

  /** The error text recorded for a failed step: the first line of its message,
      trimmed; a missing message counts as "Unknown error" (which the trimming
      leaves as it is, see DefaultErrorUnchanged). */
  function ErrorText(message: Option<string>): string {
    match message
    case Some(m) => Strip(FirstLine(m))
    case None => UnknownError
  }

  /** Taking the first line of "Unknown error" and trimming it changes nothing. */
  lemma DefaultErrorUnchanged()
    ensures Strip(FirstLine(UnknownError)) == UnknownError
  {
    TrimmedLineKept(UnknownError);
  }

  /** The recorded error is a single trimmed line, and a message that already is
      a single trimmed line is recorded as it is. */
  lemma ErrorTextIsTrimmedLine(message: Option<string>)
    ensures var e := ErrorText(message);
      && '\n' !in e
      && (e == [] || (!IsSpace(e[0]) && !IsSpace(e[|e| - 1])))
      && (message.Some? && '\n' !in message.value && Strip(message.value) == message.value ==> e == message.value)
  {
    var m := match message case Some(m) => m case None => UnknownError;
    DefaultErrorUnchanged();
    assert ErrorText(message) == Strip(FirstLine(m));
    FirstLineStripped(m);
    StripTrims(FirstLine(m));
  }

  /** The failure an element contributes under a feature with the given uri, if any. */
  function ElementFailure(uri: string, e: Element): Option<Failure> {
    if e.kind != Some("scenario") then None
    else match FirstFailedStep(e.steps)
      case None => None
      case Some(k) => Some(Failure(uri, e.line, e.name, e.id, ErrorText(e.steps[k].errorMessage)))
  }

  /** An element yields a record exactly when it is a scenario with a failed step;
      the record carries the element's fields and the error of its first failed step. */
  lemma ElementFailureSpec(uri: string, e: Element)
    ensures ElementFailure(uri, e).Some? <==>
      e.kind == Some("scenario") && exists k :: 0 <= k < |e.steps| && IsFailedStep(e.steps[k])
    ensures ElementFailure(uri, e).Some? ==>
      var f := ElementFailure(uri, e).value;
      && f.uri == uri && f.line == e.line && f.name == e.name && f.id == e.id
      && exists k :: IsFirstFailed(e.steps, k) && f.error == ErrorText(e.steps[k].errorMessage)
  {
    var o := FirstFailedStep(e.steps);
    if o.Some? {
      assert IsFailedStep(e.steps[o.value]);
    }
  }

  function AsSeq<T>(o: Option<T>): seq<T> {
    match o case Some(x) => [x] case None => []
  }

  function ElementsFailures(uri: string, elements: seq<Element>): seq<Failure> {
    if elements == [] then []
    else ElementsFailures(uri, elements[..|elements| - 1]) + AsSeq(ElementFailure(uri, elements[|elements| - 1]))
  }

  /** A feature without a (non-empty) uri contributes nothing. */
  function FeatureFailures(feature: Feature): seq<Failure> {
    if feature.uri.None? || feature.uri.value == [] then []
    else ElementsFailures(feature.uri.value, feature.elements)
  }

  function FeaturesFailures(features: seq<Feature>): seq<Failure> {
    if features == [] then []
    else FeaturesFailures(features[..|features| - 1]) + FeatureFailures(features[|features| - 1])
  }

  /** Every failure of every report, in report, feature and element order (duplicates kept). */
  function Extracted(reports: seq<Report>): seq<Failure> {
    if reports == [] then []
    else Extracted(reports[..|reports| - 1]) + FeaturesFailures(reports[|reports| - 1])
  }

  /** The failure `f` comes from the `j`-th element of `feature`. */
  predicate YieldsAt(feature: Feature, j: int, f: Failure) {
    && 0 <= j < |feature.elements|
    && feature.uri == Some(f.uri)
    && f.uri != []
    && ElementFailure(f.uri, feature.elements[j]) == Some(f)
  }

  lemma {:induction false} InElementsFailures(uri: string, elements: seq<Element>, f: Failure)
    ensures f in ElementsFailures(uri, elements) <==>
      exists j :: 0 <= j < |elements| && ElementFailure(uri, elements[j]) == Some(f)
  {
    if elements != [] {
      var n := |elements| - 1;
      var init := elements[..n];
      var o := ElementFailure(uri, elements[n]);
      assert ElementsFailures(uri, elements) == ElementsFailures(uri, init) + AsSeq(o);
      InElementsFailures(uri, init, f);
      if f in ElementsFailures(uri, elements) {
        if f in ElementsFailures(uri, init) {
          var j :| 0 <= j < n && ElementFailure(uri, init[j]) == Some(f);
          assert elements[j] == init[j];
        } else {
          assert f in AsSeq(o);
          assert o == Some(f);
        }
      }
      if exists j :: 0 <= j < |elements| && ElementFailure(uri, elements[j]) == Some(f) {
        var j :| 0 <= j < |elements| && ElementFailure(uri, elements[j]) == Some(f);
        if j < n {
          assert init[j] == elements[j];
          assert f in ElementsFailures(uri, init);
        } else {
          assert j == n;
          assert o == Some(f);
          assert AsSeq(o) == [f];
        }
      }
    }
  }

  lemma {:induction false} InFeaturesFailures(features: seq<Feature>, f: Failure)
    ensures f in FeaturesFailures(features) <==>
      exists i, j :: 0 <= i < |features| && YieldsAt(features[i], j, f)
  {
    if features != [] {
      var n := |features| - 1;
      var init := features[..n];
      var last := features[n];
      InFeaturesFailures(init, f);
      if f in FeaturesFailures(init) {
        var i, j :| 0 <= i < n && YieldsAt(init[i], j, f);
        assert features[i] == init[i];
      }
      if f in FeatureFailures(last) {
        InElementsFailures(last.uri.value, last.elements, f);
        var j :| 0 <= j < |last.elements| && ElementFailure(last.uri.value, last.elements[j]) == Some(f);
        assert YieldsAt(features[n], j, f);
      }
      if exists i, j :: 0 <= i < |features| && YieldsAt(features[i], j, f) {
        var i, j :| 0 <= i < |features| && YieldsAt(features[i], j, f);
        if i < n {
          assert init[i] == features[i];
        } else {
          InElementsFailures(last.uri.value, last.elements, f);
        }
      }
    }
  }

  /** A record is extracted exactly when some element of some feature of some report yields it. */
  lemma InExtracted(reports: seq<Report>, f: Failure)
    ensures f in Extracted(reports) <==>
      exists r, i, j :: 0 <= r < |reports| && 0 <= i < |reports[r]| && YieldsAt(reports[r][i], j, f)
  {
    if f in Extracted(reports) {
      var r, i, j := ExtractedFrom(reports, f);
    }
    if exists r, i, j :: 0 <= r < |reports| && 0 <= i < |reports[r]| && YieldsAt(reports[r][i], j, f) {
      var r, i, j :| 0 <= r < |reports| && 0 <= i < |reports[r]| && YieldsAt(reports[r][i], j, f);
      ExtractedFromAt(reports, r, i, j, f);
    }
  }

  /** Where an extracted record comes from. */
  lemma {:induction false} ExtractedFrom(reports: seq<Report>, f: Failure) returns (r: int, i: int, j: int)
    requires f in Extracted(reports)
    ensures 0 <= r < |reports| && 0 <= i < |reports[r]| && YieldsAt(reports[r][i], j, f)
  {
    var n := |reports| - 1;
    var init := reports[..n];
    assert Extracted(reports) == Extracted(init) + FeaturesFailures(reports[n]);
    if f in Extracted(init) {
      r, i, j := ExtractedFrom(init, f);
      assert reports[r] == init[r];
    } else {
      InFeaturesFailures(reports[n], f);
      r := n;
      i, j :| 0 <= i < |reports[n]| && YieldsAt(reports[n][i], j, f);
    }
  }

  /** A record some element yields is extracted. */
  lemma {:induction false} ExtractedFromAt(reports: seq<Report>, r: int, i: int, j: int, f: Failure)
    requires 0 <= r < |reports| && 0 <= i < |reports[r]| && YieldsAt(reports[r][i], j, f)
    ensures f in Extracted(reports)
  {
    var n := |reports| - 1;
    var init := reports[..n];
    assert Extracted(reports) == Extracted(init) + FeaturesFailures(reports[n]);
    if r < n {
      assert init[r] == reports[r];
      ExtractedFromAt(init, r, i, j, f);
    } else {
      InFeaturesFailures(reports[n], f);
    }
  }

  /** Reports in which no step failed yield no failure, so no file is touched. */
  lemma NoFailedStepNoFailure(reports: seq<Report>)
    requires forall r, i, j, k ::
      (0 <= r < |reports| && 0 <= i < |reports[r]| && 0 <= j < |reports[r][i].elements| &&
       0 <= k < |reports[r][i].elements[j].steps|) ==> !IsFailedStep(reports[r][i].elements[j].steps[k])
    ensures Extracted(reports) == []
  {
    if Extracted(reports) != [] {
      InExtracted(reports, Extracted(reports)[0]);
    }
  }

  /** The message as the step loop reads it (absent: "Unknown error"), then
      cut to its first line and trimmed when it is not empty. */
  lemma ErrorTextOfMessage(message: Option<string>)
    ensures var raw := match message case Some(m) => m case None => UnknownError;
      ErrorText(message) == if raw != [] then Strip(FirstLine(raw)) else raw
  {
    DefaultErrorUnchanged();
  }

  lemma FirstFailedStepIs(steps: seq<Step>, k: int)
    requires IsFirstFailed(steps, k)
    ensures FirstFailedStep(steps) == Some(k)
  {
  }

  /** The step loop of `analyze_failures`: finds the first failed step and the
      error text it records. */
  method ScanSteps(steps: seq<Step>) returns (isFailed: bool, errorMessage: string)
    ensures isFailed <==> FirstFailedStep(steps).Some?
    ensures isFailed ==> errorMessage == ErrorText(steps[FirstFailedStep(steps).value].errorMessage)
  {
    isFailed := false;
    errorMessage := "";
    for si := 0 to |steps|
      invariant !isFailed
      invariant forall j :: 0 <= j < si ==> !IsFailedStep(steps[j])
    {
      var step := steps[si];
      if step.status == Some("failed") {
        isFailed := true;
        errorMessage := match step.errorMessage case Some(m) => m case None => UnknownError;
        if errorMessage != [] {
          errorMessage := Strip(FirstLine(errorMessage));
        }
        ErrorTextOfMessage(step.errorMessage);
        FirstFailedStepIs(steps, si);
        return;
      }
    }
  }

  /** The element loop of `analyze_failures` for one feature. */
  method ScanFeature(feature: Feature) returns (found: seq<Failure>)
    ensures found == FeatureFailures(feature)
  {
    found := [];
    if feature.uri.None? || feature.uri.value == [] {
      return;
    }
    var featureUri := feature.uri.value;
    for ei := 0 to |feature.elements|
      invariant found == ElementsFailures(featureUri, feature.elements[..ei])
    {
      var element := feature.elements[ei];
      ghost var o := ElementFailure(featureUri, element);
      assert ElementsFailures(featureUri, feature.elements[..ei + 1]) ==
        ElementsFailures(featureUri, feature.elements[..ei]) + AsSeq(o) by {
        assert feature.elements[..ei + 1][..ei] == feature.elements[..ei];
      }
      if element.kind != Some("scenario") {
        assert o == None;
        continue;
      }
      var isFailed, errorMessage := ScanSteps(element.steps);
      if isFailed {
        assert o == Some(Failure(featureUri, element.line, element.name, element.id, errorMessage));
        found := found + [Failure(featureUri, element.line, element.name, element.id, errorMessage)];
      } else {
        assert o == None;
      }
    }
    assert feature.elements[..|feature.elements|] == feature.elements;
  }

  /** The feature loop of `analyze_failures` for one report. */
  method ScanReport(features: Report) returns (found: seq<Failure>)
    ensures found == FeaturesFailures(features)
  {
    found := [];
    for fi := 0 to |features|
      invariant found == FeaturesFailures(features[..fi])
    {
      assert features[..fi + 1][..fi] == features[..fi];
      var fromFeature := ScanFeature(features[fi]);
      found := found + fromFeature;
    }
    assert features[..|features|] == features;
  }

  /** The scanning part of `analyze_failures`: every report in order. */
  method ExtractFailures(reports: seq<Report>) returns (failures: seq<Failure>)
    ensures failures == Extracted(reports)
  {
    failures := [];
    for r := 0 to |reports|
      invariant failures == Extracted(reports[..r])
    {
      assert reports[..r + 1][..r] == reports[..r];
      var found := ScanReport(reports[r]);
      failures := failures + found;
    }
    assert reports[..|reports|] == reports;
  }

  /** The ids carried by `fs`. */
  function Ids(fs: seq<Failure>): (ids: set<string>)
    ensures forall i :: 0 <= i < |fs| ==> fs[i].id in ids
  {
    if fs == [] then {} else Ids(fs[..|fs| - 1]) + {fs[|fs| - 1].id}
  }

  predicate DistinctIds(fs: seq<Failure>) {
    forall i, j :: 0 <= i < j < |fs| ==> fs[i].id != fs[j].id
  }

  /** `f` is the first record of `fs` that carries its id. */
  predicate IsFirstOccurrence(fs: seq<Failure>, f: Failure) {
    exists i :: 0 <= i < |fs| && fs[i] == f && forall j :: 0 <= j < i ==> fs[j].id != f.id
  }

  /** The records of `fs` whose id has not been seen before, in order. */
  function FirstOccurrences(fs: seq<Failure>): (r: seq<Failure>)
    ensures Ids(r) == Ids(fs)
    ensures DistinctIds(r)
  {
    if fs == [] then []
    else
      var init := fs[..|fs| - 1];
      var x := fs[|fs| - 1];
      var p := FirstOccurrences(init);
      if x.id in Ids(p) then p
      else
        assert (p + [x])[..|p|] == p;
        p + [x]
  }

  /** Every kept record is the first one of its id in the input. */
  lemma {:induction false} FirstOccurrencesAreFirst(fs: seq<Failure>)
    ensures forall f :: f in FirstOccurrences(fs) ==> IsFirstOccurrence(fs, f)
  {
    if fs != [] {
      var n := |fs| - 1;
      var init := fs[..n];
      var x := fs[n];
      var p := FirstOccurrences(init);
      FirstOccurrencesAreFirst(init);
      forall f | f in FirstOccurrences(fs)
        ensures IsFirstOccurrence(fs, f)
      {
        if f in p {
          var i :| 0 <= i < |init| && init[i] == f && forall j :: 0 <= j < i ==> init[j].id != f.id;
          assert fs[i] == f;
          assert forall j :: 0 <= j < i ==> fs[j] == init[j];
        } else {
          assert f == x && x.id !in Ids(init);
          forall j | 0 <= j < n
            ensures fs[j].id != f.id
          {
            assert fs[j] == init[j];
          }
          assert fs[n] == f;
        }
      }
    }
  }

  /** The dedup loop of `analyze_failures`, with its `seen_ids` set. */
  method Dedup(failures: seq<Failure>) returns (unique: seq<Failure>)
    ensures unique == FirstOccurrences(failures)
  {
    var seenIds: set<string> := {};
    unique := [];
    for i := 0 to |failures|
      invariant unique == FirstOccurrences(failures[..i])
      invariant seenIds == Ids(unique)
    {
      var f := failures[i];
      assert failures[..i + 1][..i] == failures[..i];
      if f.id !in seenIds {
        seenIds := seenIds + {f.id};
        unique := unique + [f];
      }
    }
    assert failures[..|failures|] == failures;
  }

  /** The key order `(uri, line)` that `analyze_failures` sorts by. */
  predicate LocationLe(a: Failure, b: Failure) {
    if a.uri == b.uri then a.line <= b.line else StrLe(a.uri, b.uri)
  }

  predicate SortedByLocation(fs: seq<Failure>) {
    forall i, j :: 0 <= i < j < |fs| ==> LocationLe(fs[i], fs[j])
  }

  lemma LocationLeTransitive(a: Failure, b: Failure, c: Failure)
    requires LocationLe(a, b) && LocationLe(b, c)
    ensures LocationLe(a, c)
  {
    if a.uri != b.uri && b.uri != c.uri {
      StrLeTransitive(a.uri, b.uri, c.uri);
      if a.uri == c.uri {
        StrLeAntisymmetric(a.uri, b.uri);
      }
    }
  }

  lemma LocationLeTotal(a: Failure, b: Failure)
    ensures LocationLe(a, b) || LocationLe(b, a)
  {
    StrLeTotal(a.uri, b.uri);
  }

  /** Insert `x` into a sorted list, before the first record it does not follow. */
  function InsertByLocation(x: Failure, s: seq<Failure>): (r: seq<Failure>)
    requires SortedByLocation(s)
    ensures multiset(r) == multiset(s) + multiset{x}
    ensures SortedByLocation(r)
  {
    if s == [] then [x]
    else if LocationLe(x, s[0]) then
      InsertAtHead(x, s);
      [x] + s
    else
      LocationLeTotal(x, s[0]);
      var t := InsertByLocation(x, s[1..]);
      InsertAfterHead(x, s, t);
      [s[0]] + t
  }

  /** A record that does not follow the head of a sorted list may go in front of it. */
  lemma InsertAtHead(x: Failure, s: seq<Failure>)
    requires SortedByLocation(s) && s != [] && LocationLe(x, s[0])
    ensures SortedByLocation([x] + s)
  {
    forall j | 0 <= j < |s| ensures LocationLe(x, s[j]) {
      if j > 0 { LocationLeTransitive(x, s[0], s[j]); }
    }
  }

  /** Putting the head back in front of the list `x` went into keeps both facts. */
  lemma InsertAfterHead(x: Failure, s: seq<Failure>, t: seq<Failure>)
    requires SortedByLocation(s) && s != [] && LocationLe(s[0], x)
    requires multiset(t) == multiset(s[1..]) + multiset{x} && SortedByLocation(t)
    ensures multiset([s[0]] + t) == multiset(s) + multiset{x}
    ensures SortedByLocation([s[0]] + t)
  {
    assert s == [s[0]] + s[1..];
    AllFollow(t, s[1..], x, s[0]);
  }

  /** A list holding `x` and the records of `rest` follows a record they all follow. */
  lemma AllFollow(t: seq<Failure>, rest: seq<Failure>, x: Failure, top: Failure)
    requires multiset(t) == multiset(rest) + multiset{x}
    requires LocationLe(top, x) && forall j :: 0 <= j < |rest| ==> LocationLe(top, rest[j])
    ensures forall j :: 0 <= j < |t| ==> LocationLe(top, t[j])
  {
    forall j | 0 <= j < |t| ensures LocationLe(top, t[j]) {
      assert t[j] in multiset(t);
      if t[j] != x {
        assert t[j] in multiset(rest);
      }
    }
  }

  /** `list.sort(key=lambda x: (x['uri'], x['line']))`: a sorted permutation of its input. */
  function SortByLocation(fs: seq<Failure>): (r: seq<Failure>)
    ensures multiset(r) == multiset(fs)
    ensures SortedByLocation(r)
  {
    if fs == [] then []
    else
      assert fs == [fs[0]] + fs[1..];
      InsertByLocation(fs[0], SortByLocation(fs[1..]))
  }

  /** `analyze_failures` on already-parsed reports. */
  method AnalyzeFailures(reports: seq<Report>) returns (failures: seq<Failure>)
    ensures failures == SortByLocation(FirstOccurrences(Extracted(reports)))
    ensures SortedByLocation(failures)
    ensures multiset(failures) == multiset(FirstOccurrences(Extracted(reports)))
    ensures DistinctIds(failures)
    ensures Ids(failures) == Ids(Extracted(reports))
    ensures forall f :: f in failures ==> IsFirstOccurrence(Extracted(reports), f)
  {
    var all := ExtractFailures(reports);
    var unique := Dedup(all);
    failures := SortByLocation(unique);
    FirstOccurrencesAreFirst(all);
    PermutationKeepsIds(unique, failures);
  }

  /** The converse of Ids' postcondition: every id in `Ids(fs)` is carried by some record. */
  lemma {:induction false} InIds(fs: seq<Failure>, id: string)
    requires id in Ids(fs)
    ensures exists i :: 0 <= i < |fs| && fs[i].id == id
  {
    var n := |fs| - 1;
    if id != fs[n].id {
      InIds(fs[..n], id);
      var i :| 0 <= i < n && fs[..n][i].id == id;
      assert fs[i].id == id;
    }
  }

  /** Reordering records with distinct ids keeps the ids distinct and the same. */
  lemma PermutationKeepsIds(s: seq<Failure>, t: seq<Failure>)
    requires multiset(s) == multiset(t)
    requires DistinctIds(s)
    ensures DistinctIds(t)
    ensures Ids(s) == Ids(t)
    ensures forall f :: f in t <==> f in s
  {
    forall f ensures f in t <==> f in s {
      assert f in t <==> f in multiset(t);
      assert f in s <==> f in multiset(s);
    }
    forall id | id in Ids(s) ensures id in Ids(t) {
      InIds(s, id);
      var a :| 0 <= a < |s| && s[a].id == id;
      assert s[a] in multiset(t);
      var b :| 0 <= b < |t| && t[b] == s[a];
    }
    forall id | id in Ids(t) ensures id in Ids(s) {
      InIds(t, id);
      var b :| 0 <= b < |t| && t[b].id == id;
      assert t[b] in multiset(s);
      var a :| 0 <= a < |s| && s[a] == t[b];
    }
    forall i, j | 0 <= i < j < |t| ensures t[i].id != t[j].id {
      if t[i].id == t[j].id {
        assert t[i] in multiset(s) && t[j] in multiset(s);
        var a :| 0 <= a < |s| && s[a] == t[i];
        var b :| 0 <= b < |s| && s[b] == t[j];
        assert a == b;
        TwoCopies(t, i, j);
        DistinctHasOneCopy(s, a);
        assert false;
      }
    }
  }

  lemma TwoCopies(t: seq<Failure>, i: int, j: int)
    requires 0 <= i < j < |t| && t[i] == t[j]
    ensures multiset(t)[t[i]] >= 2
  {
    assert t == t[..i] + [t[i]] + t[i + 1..j] + [t[j]] + t[j + 1..];
  }

  lemma DistinctHasOneCopy(s: seq<Failure>, a: int)
    requires DistinctIds(s) && 0 <= a < |s|
    ensures multiset(s)[s[a]] == 1
  {
    var x := s[a];
    assert s == s[..a] + [x] + s[a + 1..];
    assert x !in s[..a] by {
      forall j | 0 <= j < a ensures s[..a][j] != x {
        assert s[j].id != s[a].id;
      }
    }
    var rest := s[a + 1..];
    assert x !in rest by {
      forall j | 0 <= j < |rest| ensures rest[j] != x {
        assert rest[j] == s[a + 1 + j];
      }
    }
  }
}
