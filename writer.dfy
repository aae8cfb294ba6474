/**
 * The annotation writer: for each failing scenario of a feature file it finds
 * the scenario line by name, and unless a skip marker already sits just above
 * it, inserts a `# SKIP REASON:` comment and an `@skip` tag carrying the
 * scenario line's indentation. A file is a sequence of lines, each keeping its
 * line terminator, as `readlines` returns them.
 */
module Writer {
  import opened Text
  import opened Reports

  /** Longest reason written as it is; a longer one is cut to ReasonKeep characters plus "...". */
  const ReasonLimit: nat := 100
  const ReasonKeep: nat := 97

  /** How many lines above a scenario line are searched for an existing marker. */
  const Window: nat := 4

  // ---------------------------------------------------------------------------
  // Locating the scenario line

  /** The trimmed line ends with the name and starts with "Scenario", and the
      line contains the name. */
  predicate IsScenarioLine(line: string, name: string) {
    var t := Strip(line);
    EndsWith(t, name) && StartsWith(t, "Scenario") && Contains(line, name)
  }

  function FindFrom(lines: seq<string>, name: string, start: nat): (r: Option<nat>)
    requires start <= |lines|
    ensures r.Some? ==>
      && start <= r.value < |lines|
      && IsScenarioLine(lines[r.value], name)
      && forall j :: start <= j < r.value ==> !IsScenarioLine(lines[j], name)
    ensures r.None? ==> forall j :: start <= j < |lines| ==> !IsScenarioLine(lines[j], name)
    decreases |lines| - start
  {
    if start == |lines| then None
    else if IsScenarioLine(lines[start], name) then Some(start)
    else FindFrom(lines, name, start + 1)
  }

  /** The index of the first scenario line for `name`, if there is one. */
  function FindScenario(lines: seq<string>, name: string): (r: Option<nat>)
    ensures r.Some? ==>
      && r.value < |lines|
      && IsScenarioLine(lines[r.value], name)
      && forall j :: 0 <= j < r.value ==> !IsScenarioLine(lines[j], name)
    ensures r.None? ==> forall j :: 0 <= j < |lines| ==> !IsScenarioLine(lines[j], name)
  {
    FindFrom(lines, name, 0)
  }

  /** A scenario line with none before it is the one FindScenario picks. */
  lemma FirstScenarioLine(lines: seq<string>, name: string, i: int)
    requires 0 <= i < |lines| && IsScenarioLine(lines[i], name)
    requires forall j :: 0 <= j < i ==> !IsScenarioLine(lines[j], name)
    ensures FindScenario(lines, name) == Some(i)
  {
  }

  /** The scan over `enumerate(lines)`, stopping at the first scenario line;
      `lineIdx` stays -1 when there is none. */
  method Locate(lines: seq<string>, name: string) returns (entryFound: bool, lineIdx: int)
    ensures entryFound <==> FindScenario(lines, name).Some?
    ensures entryFound ==> FindScenario(lines, name) == Some(lineIdx)
    ensures !entryFound ==> lineIdx == -1
  {
    lineIdx := -1;
    entryFound := false;
    for i := 0 to |lines|
      invariant forall j :: 0 <= j < i ==> !IsScenarioLine(lines[j], name)
    {
      var isScenario := TestScenarioLine(lines[i], name);
      if isScenario {
        lineIdx := i;
        entryFound := true;
        FirstScenarioLine(lines, name, i);
        return;
      }
    }
    NoScenarioLine(lines, name);
  }

  /** The two nested tests of the scan on one line. */
  method TestScenarioLine(line: string, name: string) returns (isScenario: bool)
    ensures isScenario <==> IsScenarioLine(line, name)
  {
    isScenario := false;
    if EndsWith(Strip(line), name) {
      if StartsWith(Strip(line), "Scenario") && Contains(line, name) {
        isScenario := true;
      }
    }
  }

  lemma NoScenarioLine(lines: seq<string>, name: string)
    requires forall j :: 0 <= j < |lines| ==> !IsScenarioLine(lines[j], name)
    ensures FindScenario(lines, name) == None
  {
  }

  // ---------------------------------------------------------------------------
  // The reason text

  /** `replace('"', "'")` on one character. */
  function Unquote(c: char): char {
    if c == '"' then '\'' else c
  }

  function Unquoted(s: string): (r: string)
    ensures |r| == |s|
    ensures forall i :: 0 <= i < |s| ==> r[i] == Unquote(s[i])
  {
    if s == [] then [] else Unquoted(s[..|s| - 1]) + [Unquote(s[|s| - 1])]
  }

  /** The reason written for an error: double quotes become single quotes, and
      a text longer than ReasonLimit keeps its first ReasonKeep characters and
      ends in "...". */
  function SkipReason(error: string): (r: string)
    ensures '"' !in r
    ensures |r| <= ReasonLimit
    ensures |error| <= ReasonLimit ==> |r| == |error|
    ensures |error| > ReasonLimit ==> |r| == ReasonLimit && r[ReasonKeep..] == "..."
    ensures forall i :: 0 <= i < |r| && (|error| <= ReasonLimit || i < ReasonKeep) ==> r[i] == Unquote(error[i])
  {
    var reason := Unquoted(error);
    if |reason| > ReasonLimit then reason[..ReasonKeep] + "..." else reason
  }

  // ---------------------------------------------------------------------------
  // The already-skipped window

  predicate IsSkipMarker(line: string) {
    var t := Strip(line);
    StartsWith(t, "@skip") || StartsWith(t, "@ignore") || StartsWith(t, "# SKIP REASON:")
  }

  predicate IsSectionStart(line: string) {
    var t := Strip(line);
    StartsWith(t, "Scenario") || StartsWith(t, "Feature")
  }

  /** The line `k` above `idx` is a skip marker, reached without passing a
      section start, within the window. */
  predicate MarkerAt(lines: seq<string>, idx: int, k: int)
    requires idx <= |lines|
  {
    && 1 <= k <= Window
    && 0 <= idx - k
    && IsSkipMarker(lines[idx - k])
    && forall j :: idx - k < j < idx ==> !IsSkipMarker(lines[j]) && !IsSectionStart(lines[j])
  }

  predicate AlreadySkipped(lines: seq<string>, idx: int)
    requires idx <= |lines|
  {
    exists k :: 1 <= k <= Window && MarkerAt(lines, idx, k)
  }

  /** The backwards search over `lines[idx - 1]` down to `lines[idx - 4]`. */
  method CheckAlreadySkipped(lines: seq<string>, lineIdx: int) returns (isAlreadySkipped: bool)
    requires lineIdx <= |lines|
    ensures isAlreadySkipped <==> AlreadySkipped(lines, lineIdx)
  {
    isAlreadySkipped := false;
    for i := 1 to Window + 1
      invariant forall j :: lineIdx - i < j < lineIdx && 0 <= j ==> !IsSkipMarker(lines[j]) && !IsSectionStart(lines[j])
    {
      if lineIdx - i >= 0 {
        var prevLine := lines[lineIdx - i];
        if IsSkipMarker(prevLine) {
          assert MarkerAt(lines, lineIdx, i);
          isAlreadySkipped := true;
          return;
        }
        if IsSectionStart(prevLine) {
          assert forall k :: 1 <= k <= Window ==> !MarkerAt(lines, lineIdx, k);
          return;
        }
      }
    }
  }

  // ---------------------------------------------------------------------------
  // Inserting the annotation

  /** The reason comment and the tag, in file order. */
  function SkipLines(indentation: string, reason: string): seq<string> {
    [indentation + "# SKIP REASON: " + reason + "\n", indentation + "@skip\n"]
  }

  /** The line list once one failure has been handled. */
  function Annotated(lines: seq<string>, f: Failure): (r: seq<string>)
    ensures |r| >= |lines|
    ensures |r| == |lines| ==> r == lines
  {
    match FindScenario(lines, f.name)
    case None => lines
    case Some(idx) =>
      if AlreadySkipped(lines, idx) then lines
      else lines[..idx] + SkipLines(LeadingWs(lines[idx]), SkipReason(f.error)) + lines[idx..]
  }

  /** One iteration of the per-failure loop: locate, build the reason, check the
      window, and insert the tag and then the comment at the scenario line. */
  method AnnotateFailure(lines: seq<string>, failure: Failure) returns (newLines: seq<string>, inserted: bool)
    ensures newLines == Annotated(lines, failure)
    ensures inserted <==> newLines != lines
  {
    newLines := lines;
    inserted := false;
    var targetName := failure.name;
    var entryFound, lineIdx := Locate(lines, targetName);
    if !entryFound {
      return;
    }
    var indentation := LeadingWs(lines[lineIdx]);
    var reason := SkipReason(failure.error);
    var skipComment := indentation + "# SKIP REASON: " + reason + "\n";
    var skipTag := indentation + "@skip\n";
    var isAlreadySkipped := CheckAlreadySkipped(lines, lineIdx);
    if !isAlreadySkipped {
      newLines := newLines[..lineIdx] + [skipTag] + newLines[lineIdx..];
      newLines := newLines[..lineIdx] + [skipComment] + newLines[lineIdx..];
      assert newLines == lines[..lineIdx] + SkipLines(indentation, reason) + lines[lineIdx..];
      inserted := true;
    }
  }

  /** The tag line trims to "@skip". */
  lemma TagLineStrip(indentation: string)
    requires AllSpace(indentation)
    ensures Strip(indentation + "@skip\n") == "@skip"
  {
    var t := "@skip\n";
    StripOfIndented(indentation, t);
    assert t[..5] == "@skip";
    assert RStrip(t) == RStrip(t[..5]);
  }

  /** The comment line trims to a text that starts with "# SKIP REASON:". */
  lemma CommentLineStrip(indentation: string, reason: string)
    requires AllSpace(indentation)
    ensures StartsWith(Strip(indentation + "# SKIP REASON: " + reason + "\n"), "# SKIP REASON:")
  {
    var prefix := "# SKIP REASON:";
    var rest := " " + reason + "\n";
    assert indentation + "# SKIP REASON: " + reason + "\n" == indentation + prefix + rest;
    assert prefix[0] == '#' && prefix[|prefix| - 1] == ':';
    StripKeepsPrefix(indentation, prefix, rest);
  }

  /** Both inserted lines are skip markers and neither is a scenario line. */
  lemma SkipLinesAreMarkers(indentation: string, reason: string, name: string)
    requires AllSpace(indentation)
    ensures var extra := SkipLines(indentation, reason);
      && IsSkipMarker(extra[0]) && !IsScenarioLine(extra[0], name)
      && IsSkipMarker(extra[1]) && !IsScenarioLine(extra[1], name)
  {
    var extra := SkipLines(indentation, reason);
    TagLineStrip(indentation);
    CommentLineStrip(indentation, reason);
    var scenario := "Scenario";
    var marker := "# SKIP REASON:";
    assert scenario[0] == 'S' && marker[0] == '#';
    assert Strip(extra[0])[0] == '#';
    assert !StartsWith(Strip(extra[0]), scenario);
    assert !StartsWith(Strip(extra[1]), scenario);
  }

  /** A scenario line opens a section and is not a marker. */
  lemma ScenarioLineIsSectionStart(line: string, name: string)
    requires IsScenarioLine(line, name)
    ensures IsSectionStart(line) && !IsSkipMarker(line)
  {
    var t := Strip(line);
    assert t[0] == t[..8][0] == 'S';
  }

  /** Inserting two non-scenario lines at `p` adds no scenario line before
      position `n` of the old list (`n + 2` of the new one, when `n >= p`). */
  lemma NoScenarioAfterInsert(lines: seq<string>, p: int, extra: seq<string>, name: string, n: int)
    requires 0 <= p <= |lines| && |extra| == 2
    requires !IsScenarioLine(extra[0], name) && !IsScenarioLine(extra[1], name)
    requires 0 <= n <= |lines|
    requires forall j :: 0 <= j < n ==> !IsScenarioLine(lines[j], name)
    ensures var after := lines[..p] + extra + lines[p..];
      forall j :: 0 <= j < (if n < p then n else n + 2) ==> !IsScenarioLine(after[j], name)
  {
    var after := lines[..p] + extra + lines[p..];
    var bound := if n < p then n else n + 2;
    forall j | 0 <= j < bound ensures !IsScenarioLine(after[j], name) {
      if j < p {
        assert after[j] == lines[j];
      } else if j == p {
        assert after[j] == extra[0];
      } else if j == p + 1 {
        assert after[j] == extra[1];
      } else {
        assert after[j] == lines[j - 2];
      }
    }
  }

  /** Inserting two non-scenario lines at `p` moves the first scenario line found
      below `p` down by two and leaves one above `p` in place. */
  lemma FindAfterInsert(lines: seq<string>, p: int, extra: seq<string>, name: string)
    requires 0 <= p <= |lines| && |extra| == 2
    requires !IsScenarioLine(extra[0], name) && !IsScenarioLine(extra[1], name)
    ensures var r := FindScenario(lines[..p] + extra + lines[p..], name);
      match FindScenario(lines, name)
      case None => r == None
      case Some(q) => r == Some(if q < p then q else q + 2)
  {
    var after := lines[..p] + extra + lines[p..];
    match FindScenario(lines, name)
    case None =>
      NoScenarioAfterInsert(lines, p, extra, name, |lines|);
    case Some(q) =>
      NoScenarioAfterInsert(lines, p, extra, name, q);
      var q' := if q < p then q else q + 2;
      assert after[q'] == lines[q];
      FirstScenarioLine(after, name, q');
  }

  /** When a failure's scenario is found and not yet skipped, exactly the
      comment and the tag are inserted just above it, with its indentation;
      otherwise nothing changes. */
  lemma AnnotatedInsertion(lines: seq<string>, f: Failure)
    ensures Annotated(lines, f) == lines <==>
      FindScenario(lines, f.name).None? || AlreadySkipped(lines, FindScenario(lines, f.name).value)
    ensures Annotated(lines, f) != lines ==>
      var idx := FindScenario(lines, f.name).value;
      var r := Annotated(lines, f);
      var indentation := LeadingWs(lines[idx]);
      && |r| == |lines| + 2
      && r[..idx] == lines[..idx]
      && r[idx] == indentation + "# SKIP REASON: " + SkipReason(f.error) + "\n"
      && r[idx + 1] == indentation + "@skip\n"
      && r[idx + 2..] == lines[idx..]
      && IsScenarioLine(r[idx + 2], f.name)
      && AllSpace(indentation) && StartsWith(r[idx + 2], indentation)
  {
    match FindScenario(lines, f.name)
    case None =>
    case Some(idx) =>
      if !AlreadySkipped(lines, idx) {
        LeadingWsIsPrefix(lines[idx]);
        var r := Annotated(lines, f);
        assert |r| == |lines| + 2;
        assert r[idx + 2..] == lines[idx..];
        assert r[idx + 2] == lines[idx];
      }
  }

  /** A failure whose scenario is missing or already marked: handling it changes nothing. */
  predicate Settled(lines: seq<string>, f: Failure) {
    match FindScenario(lines, f.name)
    case None => true
    case Some(idx) => AlreadySkipped(lines, idx)
  }

  /** Handling a failure settles it. */
  lemma AnnotatedSettles(lines: seq<string>, f: Failure)
    ensures Settled(Annotated(lines, f), f)
  {
    var after := Annotated(lines, f);
    SettledMeans(lines, f);
    if after != lines {
      var idx := FindScenario(lines, f.name).value;
      var indentation := LeadingWs(lines[idx]);
      var extra := SkipLines(indentation, SkipReason(f.error));
      assert after == lines[..idx] + extra + lines[idx..];
      LeadingWsIsPrefix(lines[idx]);
      SkipLinesAreMarkers(indentation, SkipReason(f.error), f.name);
      InsertedIsSettled(lines, idx, extra, f.name);
    }
  }

  /** Two markers inserted just above the first scenario line for `name` mark it. */
  lemma InsertedIsSettled(lines: seq<string>, p: int, extra: seq<string>, name: string)
    requires |extra| == 2 && FindScenario(lines, name) == Some(p)
    requires !IsScenarioLine(extra[0], name) && !IsScenarioLine(extra[1], name) && IsSkipMarker(extra[1])
    ensures var after := lines[..p] + extra + lines[p..];
      FindScenario(after, name) == Some(p + 2) && AlreadySkipped(after, p + 2)
  {
    var after := lines[..p] + extra + lines[p..];
    FindAfterInsert(lines, p, extra, name);
    assert after[p + 1] == extra[1];
    assert MarkerAt(after, p + 2, 1);
  }

  /** A marker window that lies wholly above or wholly below an insertion point
      is found again after the insertion, moved with the lines it covers. */
  lemma MarkerAfterInsert(lines: seq<string>, p: int, extra: seq<string>, q: int, k: int)
    requires 0 <= p <= |lines| && |extra| == 2 && q <= |lines|
    requires MarkerAt(lines, q, k)
    requires q < p || p <= q - k
    ensures var after := lines[..p] + extra + lines[p..];
      MarkerAt(after, if q < p then q else q + 2, k)
  {
    var after := lines[..p] + extra + lines[p..];
    if q < p {
      assert forall j :: 0 <= j < p ==> after[j] == lines[j];
    } else {
      assert forall j :: p + 2 <= j < |after| ==> after[j] == lines[j - 2];
      assert after[q + 2 - k] == lines[q - k];
      forall j | q + 2 - k < j < q + 2
        ensures !IsSkipMarker(after[j]) && !IsSectionStart(after[j])
      {
        assert after[j] == lines[j - 2];
      }
    }
  }

  /** A failure is settled exactly when handling it leaves the lines as they are. */
  lemma SettledMeans(lines: seq<string>, f: Failure)
    ensures Settled(lines, f) <==> Annotated(lines, f) == lines
  {
    AnnotatedInsertion(lines, f);
  }

  /** Handling the same failure twice inserts nothing the second time. */
  lemma AnnotatedIdempotent(lines: seq<string>, f: Failure)
    ensures Annotated(Annotated(lines, f), f) == Annotated(lines, f)
  {
    AnnotatedSettles(lines, f);
    SettledMeans(Annotated(lines, f), f);
  }

  /** Handling one failure keeps every other settled failure settled: inserted
      lines never match a scenario name, and they go just above a scenario line,
      which stops the marker search of every scenario below it. */
  lemma AnnotatedKeepsSettled(lines: seq<string>, f: Failure, g: Failure)
    requires Settled(lines, g)
    ensures Settled(Annotated(lines, f), g)
  {
    var after := Annotated(lines, f);
    SettledMeans(lines, f);
    if after != lines {
      var p := FindScenario(lines, f.name).value;
      var indentation := LeadingWs(lines[p]);
      var extra := SkipLines(indentation, SkipReason(f.error));
      assert after == lines[..p] + extra + lines[p..];
      LeadingWsIsPrefix(lines[p]);
      SkipLinesAreMarkers(indentation, SkipReason(f.error), g.name);
      FindAfterInsert(lines, p, extra, g.name);
      match FindScenario(lines, g.name)
      case None =>
      case Some(q) =>
        var k :| 1 <= k <= Window && MarkerAt(lines, q, k);
        if q >= p {
          ScenarioLineIsSectionStart(lines[p], f.name);
          assert q != p;
          assert p <= q - k;
        }
        MarkerAfterInsert(lines, p, extra, q, k);
    }
  }

  /** Handling the failures of a file one after the other. */
  function AnnotatedAll(lines: seq<string>, fs: seq<Failure>): (r: seq<string>)
    ensures |r| >= |lines|
    ensures |r| == |lines| ==> r == lines
  {
    if fs == [] then lines
    else Annotated(AnnotatedAll(lines, fs[..|fs| - 1]), fs[|fs| - 1])
  }

  /** After handling a list of failures, each of them is settled. */
  lemma {:induction false} AnnotatedAllSettles(lines: seq<string>, fs: seq<Failure>)
    ensures forall i :: 0 <= i < |fs| ==> Settled(AnnotatedAll(lines, fs), fs[i])
  {
    if fs != [] {
      var n := |fs| - 1;
      var before := AnnotatedAll(lines, fs[..n]);
      AnnotatedAllSettles(lines, fs[..n]);
      SettlesStep(before, fs[..n], fs[n], fs);
    }
  }

  /** The induction step: handling one more failure after a settled list. */
  lemma SettlesStep(before: seq<string>, init: seq<Failure>, f: Failure, fs: seq<Failure>)
    requires fs == init + [f]
    requires forall i :: 0 <= i < |init| ==> Settled(before, init[i])
    ensures forall i :: 0 <= i < |fs| ==> Settled(Annotated(before, f), fs[i])
  {
    var now := Annotated(before, f);
    AnnotatedKeepsAllSettled(before, f, init);
    AnnotatedSettles(before, f);
    forall i | 0 <= i < |fs| ensures Settled(now, fs[i]) {
      if i < |init| {
        assert fs[i] == init[i];
      } else {
        assert fs[i] == f;
      }
    }
  }

  /** Handling a failure keeps a whole list of settled failures settled. */
  lemma AnnotatedKeepsAllSettled(lines: seq<string>, f: Failure, gs: seq<Failure>)
    requires forall i :: 0 <= i < |gs| ==> Settled(lines, gs[i])
    ensures forall i :: 0 <= i < |gs| ==> Settled(Annotated(lines, f), gs[i])
  {
    forall i | 0 <= i < |gs| ensures Settled(Annotated(lines, f), gs[i]) {
      AnnotatedKeepsSettled(lines, f, gs[i]);
    }
  }

  /** Lines on which every failure is already settled are left as they are. */
  lemma {:induction false} AllSettledUnchanged(lines: seq<string>, fs: seq<Failure>)
    requires forall i :: 0 <= i < |fs| ==> Settled(lines, fs[i])
    ensures AnnotatedAll(lines, fs) == lines
  {
    if fs != [] {
      var n := |fs| - 1;
      assert forall i :: 0 <= i < n ==> fs[..n][i] == fs[i];
      AllSettledUnchanged(lines, fs[..n]);
      assert AnnotatedAll(lines, fs) == Annotated(AnnotatedAll(lines, fs[..n]), fs[n]);
      SettledMeans(lines, fs[n]);
    }
  }

  /** Running the writer a second time over a file it produced, with the same
      failures, changes nothing, so the file is not rewritten. */
  lemma AnnotatedFileIdempotent(lines: seq<string>, fileFailures: seq<Failure>)
    ensures AnnotatedFile(AnnotatedFile(lines, fileFailures), fileFailures) == AnnotatedFile(lines, fileFailures)
  {
    var sorted := SortByLineDesc(fileFailures);
    AnnotatedAllSettles(lines, sorted);
    AllSettledUnchanged(AnnotatedAll(lines, sorted), sorted);
  }

  /** Insert `x` before the first record whose line is not greater. */
  function InsertByLineDesc(x: Failure, s: seq<Failure>): (r: seq<Failure>)
    requires SortedByLineDesc(s)
    ensures multiset(r) == multiset(s) + multiset{x}
    ensures SortedByLineDesc(r)
  {
    if s == [] || x.line >= s[0].line then [x] + s
    else
      var t := InsertByLineDesc(x, s[1..]);
      InsertBelowHead(x, s, t);
      [s[0]] + t
  }

  /** Putting the head back in front of the list `x` went into keeps both facts. */
  lemma InsertBelowHead(x: Failure, s: seq<Failure>, t: seq<Failure>)
    requires SortedByLineDesc(s) && s != [] && x.line < s[0].line
    requires multiset(t) == multiset(s[1..]) + multiset{x} && SortedByLineDesc(t)
    ensures multiset([s[0]] + t) == multiset(s) + multiset{x}
    ensures SortedByLineDesc([s[0]] + t)
  {
    assert s == [s[0]] + s[1..];
    LinesAtMost(t, s[1..], x, s[0].line);
  }

  /** A list holding `x` and the records of `rest` has no line above a bound of them all. */
  lemma LinesAtMost(t: seq<Failure>, rest: seq<Failure>, x: Failure, top: int)
    requires multiset(t) == multiset(rest) + multiset{x}
    requires x.line <= top && forall j :: 0 <= j < |rest| ==> rest[j].line <= top
    ensures forall j :: 0 <= j < |t| ==> t[j].line <= top
  {
    forall j | 0 <= j < |t| ensures t[j].line <= top {
      assert t[j] in multiset(t);
      if t[j] != x {
        assert t[j] in multiset(rest);
      }
    }
  }

  predicate SortedByLineDesc(fs: seq<Failure>) {
    forall i, j :: 0 <= i < j < |fs| ==> fs[i].line >= fs[j].line
  }

  /** `file_failures.sort(key=lambda x: x['line'], reverse=True)`. */
  function SortByLineDesc(fs: seq<Failure>): (r: seq<Failure>)
    ensures multiset(r) == multiset(fs)
    ensures SortedByLineDesc(r)
  {
    if fs == [] then []
    else
      assert fs == [fs[0]] + fs[1..];
      InsertByLineDesc(fs[0], SortByLineDesc(fs[1..]))
  }

  /** The lines of a file once all its failures have been handled, bottom-most first. */
  function AnnotatedFile(lines: seq<string>, fileFailures: seq<Failure>): seq<string> {
    AnnotatedAll(lines, SortByLineDesc(fileFailures))
  }

  /** The per-file body of `skip_failures`; `modified` decides whether the file is written back. */
  method AnnotateFile(lines: seq<string>, fileFailures: seq<Failure>) returns (newLines: seq<string>, modified: bool)
    ensures newLines == AnnotatedFile(lines, fileFailures)
    ensures modified <==> newLines != lines
    ensures modified <==> |newLines| > |lines|
  {
    var sorted := SortByLineDesc(fileFailures);
    newLines := lines;
    modified := false;
    for i := 0 to |sorted|
      invariant newLines == AnnotatedAll(lines, sorted[..i])
      invariant modified <==> newLines != lines
    {
      assert sorted[..i + 1][..i] == sorted[..i];
      var inserted;
      newLines, inserted := AnnotateFailure(newLines, sorted[i]);
      modified := modified || inserted;
    }
    assert sorted[..|sorted|] == sorted;
  }

  // ---------------------------------------------------------------------------
  // Grouping by file

  /** The records of `fs` for one file, in order. */
  function WithUri(fs: seq<Failure>, uri: string): seq<Failure> {
    if fs == [] then []
    else WithUri(fs[..|fs| - 1], uri) + (if fs[|fs| - 1].uri == uri then [fs[|fs| - 1]] else [])
  }

  /** The files of `fs` in order of first appearance (the key order of the grouping dict). */
  function UrisInOrder(fs: seq<Failure>): seq<string> {
    if fs == [] then []
    else
      var p := UrisInOrder(fs[..|fs| - 1]);
      if fs[|fs| - 1].uri in p then p else p + [fs[|fs| - 1].uri]
  }

  predicate NoRepeats(r: seq<string>) {
    forall i, j :: 0 <= i < j < |r| ==> r[i] != r[j]
  }

  /** The key order lists exactly the uris of the records, each once. */
  lemma {:induction false} UrisInOrderSpec(fs: seq<Failure>)
    ensures forall i :: 0 <= i < |fs| ==> fs[i].uri in UrisInOrder(fs)
    ensures forall u :: u in UrisInOrder(fs) ==> exists i :: 0 <= i < |fs| && fs[i].uri == u
    ensures NoRepeats(UrisInOrder(fs))
  {
    if fs != [] {
      var n := |fs| - 1;
      var init := fs[..n];
      UrisInOrderSpec(init);
      var p := UrisInOrder(init);
      forall i | 0 <= i < |fs| ensures fs[i].uri in UrisInOrder(fs) {
        if i < n {
          assert fs[i] == init[i];
        }
      }
      forall u | u in UrisInOrder(fs) ensures exists i :: 0 <= i < |fs| && fs[i].uri == u {
        if u in p {
          var i :| 0 <= i < |init| && init[i].uri == u;
          assert fs[i] == init[i];
        } else {
          assert fs[n].uri == u;
        }
      }
      var r := UrisInOrder(fs);
      if fs[n].uri !in p {
        forall i, j | 0 <= i < j < |r| ensures r[i] != r[j] {
          assert r[i] == p[i];
          if j == |p| {
            assert r[j] == fs[n].uri && p[i] in p;
          } else {
            assert r[j] == p[j];
          }
        }
      }
    }
  }

  /** The grouping dict built record by record: a new uri starts an empty
      group, and every record is appended to its own uri's group. */
  function GroupsOf(fs: seq<Failure>): map<string, seq<Failure>> {
    if fs == [] then map[]
    else
      var g := GroupsOf(fs[..|fs| - 1]);
      var x := fs[|fs| - 1];
      g[x.uri := (if x.uri in g then g[x.uri] else []) + [x]]
  }

  /** The dict has exactly the uris of the key order as keys, and maps each
      uri to the records carrying it, in input order. */
  lemma GroupsOfSpec(fs: seq<Failure>)
    ensures forall u :: u in GroupsOf(fs) <==> u in UrisInOrder(fs)
    ensures forall u :: u in GroupsOf(fs) ==> GroupsOf(fs)[u] == WithUri(fs, u)
    ensures forall u :: u !in GroupsOf(fs) ==> WithUri(fs, u) == []
  {
    forall u ensures u in GroupsOf(fs) <==> u in UrisInOrder(fs) {
      GroupsOfAt(fs, u);
    }
    forall u ensures u in GroupsOf(fs) ==> GroupsOf(fs)[u] == WithUri(fs, u) {
      GroupsOfAt(fs, u);
    }
    forall u ensures u !in GroupsOf(fs) ==> WithUri(fs, u) == [] {
      GroupsOfAt(fs, u);
    }
  }

  /** GroupsOfSpec for one uri. */
  lemma {:induction false} GroupsOfAt(fs: seq<Failure>, u: string)
    ensures u in GroupsOf(fs) <==> u in UrisInOrder(fs)
    ensures u in GroupsOf(fs) ==> GroupsOf(fs)[u] == WithUri(fs, u)
    ensures u !in GroupsOf(fs) ==> WithUri(fs, u) == []
  {
    if fs != [] {
      var init := fs[..|fs| - 1];
      var x := fs[|fs| - 1];
      GroupsOfAt(init, u);
      if u == x.uri {
        GroupsOfAt(init, x.uri);
      } else {
        assert u in UrisInOrder(init) + [x.uri] <==> u in UrisInOrder(init);
      }
    }
  }

  /** The grouping loop of `skip_failures`: `files_to_modify` as its key order and its map. */
  method GroupByUri(failures: seq<Failure>) returns (uris: seq<string>, groups: map<string, seq<Failure>>)
    ensures uris == UrisInOrder(failures)
    ensures forall u :: u in groups <==> u in uris
    ensures forall u :: u in groups ==> groups[u] == WithUri(failures, u)
    ensures forall u :: u !in groups ==> WithUri(failures, u) == []
  {
    uris := [];
    groups := map[];
    for i := 0 to |failures|
      invariant uris == UrisInOrder(failures[..i])
      invariant groups == GroupsOf(failures[..i])
    {
      var failure := failures[i];
      var uri := failure.uri;
      assert failures[..i + 1][..i] == failures[..i];
      GroupsOfAt(failures[..i], uri);
      if uri !in groups {
        groups := groups[uri := []];
        uris := uris + [uri];
      }
      groups := groups[uri := groups[uri] + [failure]];
    }
    assert failures[..|failures|] == failures;
    GroupsOfSpec(failures);
  }

  /** The files written back once the files `us` have been handled in order:
      each one whose lines the writer changes, with its new lines. */
  ghost function WrittenBack(files: map<string, seq<string>>, groups: map<string, seq<Failure>>, us: seq<string>): map<string, seq<string>>
  {
    if us == [] then map[]
    else
      var u := us[|us| - 1];
      var w := WrittenBack(files, groups, us[..|us| - 1]);
      if u in files && u in groups && AnnotatedFile(files[u], groups[u]) != files[u]
      then w[u := AnnotatedFile(files[u], groups[u])]
      else w
  }

  lemma {:induction false} WrittenBackSpec(files: map<string, seq<string>>, groups: map<string, seq<Failure>>, us: seq<string>)
    ensures forall u :: u in WrittenBack(files, groups, us) <==>
      u in us && u in files && u in groups && AnnotatedFile(files[u], groups[u]) != files[u]
    ensures forall u :: u in WrittenBack(files, groups, us) ==> WrittenBack(files, groups, us)[u] == AnnotatedFile(files[u], groups[u])
  {
    if us != [] {
      var init := us[..|us| - 1];
      WrittenBackSpec(files, groups, init);
      assert forall u :: u in us <==> u in init || u == us[|us| - 1] by {
        assert us == init + [us[|us| - 1]];
      }
    }
  }

  /** The loop of `skip_failures` over the grouped files, in key order. */
  method WriteBack(uris: seq<string>, groups: map<string, seq<Failure>>, files: map<string, seq<string>>)
    returns (written: map<string, seq<string>>)
    requires forall u :: u in uris ==> u in groups
    ensures written == WrittenBack(files, groups, uris)
  {
    written := map[];
    for k := 0 to |uris|
      invariant written == WrittenBack(files, groups, uris[..k])
    {
      var uri := uris[k];
      assert uris[..k + 1][..k] == uris[..k];
      if uri !in files {
        continue;
      }
      var lines := files[uri];
      var newLines, modified := AnnotateFile(lines, groups[uri]);
      if modified {
        written := written[uri := newLines];
      }
    }
    assert uris[..|uris|] == uris;
  }

  /** `skip_failures` on already-parsed reports and an in-memory file system: the
      files it writes back, with their new contents. A file named by a failure
      but missing from `files` is passed over. */
  method SkipFailures(reports: seq<Report>, files: map<string, seq<string>>) returns (written: map<string, seq<string>>)
    ensures var all := SortByLocation(FirstOccurrences(Extracted(reports)));
      forall u :: u in written <==> u in files && AnnotatedFile(files[u], WithUri(all, u)) != files[u]
    ensures var all := SortByLocation(FirstOccurrences(Extracted(reports)));
      forall u :: u in written ==> written[u] == AnnotatedFile(files[u], WithUri(all, u))
  {
    var failures := AnalyzeFailures(reports);
    written := map[];
    if |failures| == 0 {
      forall u | u in files ensures AnnotatedFile(files[u], WithUri(failures, u)) == files[u] {
        NoFailuresNoChange(files[u]);
      }
      return;
    }
    var uris, filesToModify := GroupByUri(failures);
    written := WriteBack(uris, filesToModify, files);
    WrittenBackSpec(files, filesToModify, uris);
    forall u | u in files && u !in filesToModify
      ensures AnnotatedFile(files[u], WithUri(failures, u)) == files[u]
    {
      NoFailuresNoChange(files[u]);
    }
  }

  /** A file with no failing scenario is left as it is. */
  lemma NoFailuresNoChange(lines: seq<string>)
    ensures AnnotatedFile(lines, []) == lines
  {
  }
}
