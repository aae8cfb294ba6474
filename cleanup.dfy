/**
 * The annotation normaliser: a pass over the lines of a feature file that
 * rewrites the one-line form `@skip # reason` into the two-line form the
 * writer produces (a `# SKIP REASON:` comment above an `@skip` tag), swallows
 * the one-line markers that directly follow a rewritten one, and drops an
 * `@skip` line that would directly follow another. A file is written back only
 * when the pass changed something.
 */
module Cleanup {
  import opened Text
  import opened Writer

  // ---------------------------------------------------------------------------
  // Classifying lines

  /** The line matches `^(\s*)@skip\s+#`: an optional indent, the tag, at least
      one blank and a `#`. The pattern of the inner loop is this one without the
      trailing `\s*(.*)`, which matches any text, so the same predicate serves
      both. The indent is the whole leading blank run, since `@` is not blank. */
  predicate IsInlineSkip(line: string) {
    var rest := line[|LeadingWs(line)|..];
    && StartsWith(rest, "@skip")
    && |rest| > 5
    && IsSpace(rest[5])
    && StartsWith(LStrip(rest[5..]), "#")
  }

  /** The line trims to exactly "@skip". */
  predicate IsBareSkip(line: string) {
    Strip(line) == "@skip"
  }

  /** The reason of a one-line marker: what `(.*)` captures after `#\s*`
      (up to the end of the line), trimmed, with one leading "Error: " removed. */
  function InlineReason(line: string): (reason: string)
    requires IsInlineSkip(line)
  {
    var rest := line[|LeadingWs(line)|..];
    var afterHash := LStrip(rest[5..])[1..];
    var raw := Strip(FirstLine(LStrip(afterHash)));
    if StartsWith(raw, "Error: ") then raw[|"Error: "|..] else raw
  }

  /** The reason of a one-line marker fits on one line. */
  lemma InlineReasonIsOneLine(line: string)
    requires IsInlineSkip(line)
    ensures '\n' !in InlineReason(line)
  {
    var rest := line[|LeadingWs(line)|..];
    var afterHash := LStrip(rest[5..])[1..];
    var raw := Strip(FirstLine(LStrip(afterHash)));
    FirstLineStripped(LStrip(afterHash));
    if StartsWith(raw, "Error: ") {
      assert forall c :: c in raw[7..] ==> c in raw;
    }
  }

  /** The two lines a one-line marker becomes. */
  function Rewritten(line: string): seq<string>
    requires IsInlineSkip(line)
  {
    SkipLines(LeadingWs(line), InlineReason(line))
  }

  /** A line that trims to "@skip" is not a one-line marker: a marker keeps its
      `#` when trimmed. */
  lemma BareIsNotInline(line: string)
    requires IsBareSkip(line)
    ensures !IsInlineSkip(line)
  {
    if IsInlineSkip(line) {
      var ws := LeadingWs(line);
      LeadingWsIsPrefix(line);
      var t := line[|ws|..];
      var a := t[5..];
      LStripIsSuffix(a);
      var h := 5 + |a| - |LStrip(a)|;
      assert t[h] == '#';
      assert line == ws + t;
      StripOfIndented(ws, t);
      RStripIsPrefix(t);
      assert false;
    }
  }

  // ---------------------------------------------------------------------------
  // Lines tagged with what the pass does with them

  /** How the pass treats a line: a one-line marker (with the comment and the
      tag it becomes), a line that trims to "@skip", or any other line. */
  datatype Kind<L> = Inline(line: L, comment: L, tag: L) | Bare(line: L) | Plain(line: L)

  function KindOf(line: string): Kind<string> {
    if IsInlineSkip(line) then
      var extra := Rewritten(line);
      Inline(line, extra[0], extra[1])
    else if IsBareSkip(line) then Bare(line)
    else Plain(line)
  }

  /** The kind of every line, in order. */
  function Kinds(lines: seq<string>): (ks: seq<Kind<string>>)
    ensures |ks| == |lines|
  {
    seq(|lines|, k requires 0 <= k < |lines| => KindOf(lines[k]))
  }

  lemma KindsAt(lines: seq<string>, k: int)
    requires 0 <= k < |lines|
    ensures Kinds(lines)[k] == KindOf(lines[k])
  {
  }

  /** The text of tagged lines. */
  function Lines<L>(ks: seq<Kind<L>>): (r: seq<L>)
    ensures |r| == |ks| && forall k :: 0 <= k < |ks| ==> r[k] == ks[k].line
  {
    seq(|ks|, k requires 0 <= k < |ks| => ks[k].line)
  }

  /** A tag carries the line it was made from. */
  lemma KindOfLine(line: string)
    ensures KindOf(line).line == line
  {
  }

  /** The tags of a file carry its lines. */
  lemma KindsCarryLines(lines: seq<string>)
    ensures Lines(Kinds(lines)) == lines
  {
    var r := Lines(Kinds(lines));
    forall k | 0 <= k < |lines| ensures r[k] == lines[k] {
      KindsAt(lines, k);
      KindOfLine(lines[k]);
    }
  }

  /** The two lines of the rewritten form: the comment is a plain line and the
      tag trims to "@skip"; neither is a one-line marker. */
  lemma RewrittenKinds(indentation: string, reason: string)
    requires AllSpace(indentation)
    ensures var extra := SkipLines(indentation, reason);
      KindOf(extra[0]) == Plain(extra[0]) && KindOf(extra[1]) == Bare(extra[1])
  {
    var extra := SkipLines(indentation, reason);
    var comment := "# SKIP REASON: " + reason + "\n";
    var tag := "@skip\n";
    assert extra[0] == indentation + comment && extra[1] == indentation + tag;
    assert comment[0] == '#' && tag[0] == '@';
    LeadingWsOfIndented(indentation, comment);
    LeadingWsOfIndented(indentation, tag);
    assert extra[0][|indentation|..] == comment;
    assert extra[1][|indentation|..] == tag;
    assert !StartsWith(comment, "@skip");
    assert tag[5..] == "\n" && LStrip(tag[5..]) == [];
    CommentLineStrip(indentation, reason);
    TagLineStrip(indentation);
  }

  /** The comment and tag a one-line marker carries are a plain line and an
      "@skip" line. */
  lemma InlineParts(line: string)
    requires KindOf(line).Inline?
    ensures var kd := KindOf(line);
      KindOf(kd.comment) == Plain(kd.comment) && KindOf(kd.tag) == Bare(kd.tag)
  {
    LeadingWsIsPrefix(line);
    RewrittenKinds(LeadingWs(line), InlineReason(line));
  }

  /** A one-line marker is tagged with the two lines it becomes. */
  lemma MarkerTag(line: string)
    requires IsInlineSkip(line)
    ensures KindOf(line).Inline?
    ensures [KindOf(line).comment, KindOf(line).tag] == Rewritten(line)
  {
  }

  // ---------------------------------------------------------------------------
  // The reference definition: what each input line contributes to the output

  /** Line `k` is rewritten, swallowed or dropped: the pass sets `modified` for it. */
  predicate Changes<L>(ks: seq<Kind<L>>, k: int)
    requires 0 <= k < |ks|
  {
    || ks[k].Inline?
    || (ks[k].Bare? && k > 0 && !ks[k - 1].Plain?)
  }

  /** The output lines that come from input line `k`. A one-line marker right
      after another one is swallowed by the first one's run; an `@skip` line
      right after a marker or an `@skip` line is dropped, since the last line
      written then trims to "@skip"; every other line is copied. */
  function Contribution<L>(ks: seq<Kind<L>>, k: int): seq<Kind<L>>
    requires 0 <= k < |ks|
  {
    if ks[k].Inline? then
      if k > 0 && ks[k - 1].Inline? then [] else [Plain(ks[k].comment), Bare(ks[k].tag)]
    else if Changes(ks, k) then []
    else [ks[k]]
  }

  /** The output once the first `n` input lines are handled. */
  function Emitted<L>(ks: seq<Kind<L>>, n: int): seq<Kind<L>>
    requires 0 <= n <= |ks|
  {
    if n == 0 then [] else Emitted(ks, n - 1) + Contribution(ks, n - 1)
  }

  /** The file once the pass is over. */
  function Normalized(lines: seq<string>): seq<string> {
    Lines(Emitted(Kinds(lines), |lines|))
  }

  /** No one-line marker, and no two adjacent "@skip" lines. */
  predicate CanonicalKinds<L>(ks: seq<Kind<L>>) {
    && (forall k :: 0 <= k < |ks| ==> !ks[k].Inline?)
    && (forall k :: 0 < k < |ks| ==> !(ks[k - 1].Bare? && ks[k].Bare?))
  }

  /** A file the pass has nothing to do on. */
  predicate Canonical(s: seq<string>) {
    CanonicalKinds(Kinds(s))
  }

  predicate LastBare<L>(ks: seq<Kind<L>>) {
    ks != [] && ks[|ks| - 1].Bare?
  }

  // ---------------------------------------------------------------------------
  // Properties of the output, on tags

  /** Every prefix of the output is canonical, and its last line trims to
      "@skip" exactly when the last input line handled was a marker or an
      `@skip` line. This is what the duplicate check of the pass looks at. */
  lemma {:induction false} EmittedFacts<L>(ks: seq<Kind<L>>, n: int)
    requires 0 <= n <= |ks|
    ensures CanonicalKinds(Emitted(ks, n))
    ensures LastBare(Emitted(ks, n)) <==> n > 0 && !ks[n - 1].Plain?
  {
    if n > 0 {
      EmittedFacts(ks, n - 1);
      var e := Emitted(ks, n - 1);
      var c := Contribution(ks, n - 1);
      EmittedStep(ks, n - 1);
      if c == [] {
        assert e + c == e;
      } else {
        assert c[0].Bare? ==> !LastBare(e);
        CanonicalAppend(e, c);
      }
    }
  }

  /** Appending canonical tags to canonical ones, without putting an "@skip"
      line right after another, keeps them canonical. */
  lemma CanonicalAppend<L>(e: seq<Kind<L>>, c: seq<Kind<L>>)
    requires CanonicalKinds(e) && CanonicalKinds(c) && c != []
    requires c[0].Bare? ==> !LastBare(e)
    ensures CanonicalKinds(e + c)
  {
    var ec := e + c;
    forall k | 0 < k < |ec| ensures !(ec[k - 1].Bare? && ec[k].Bare?) {
      if k < |e| {
        assert ec[k - 1] == e[k - 1] && ec[k] == e[k];
      } else if k == |e| {
        assert ec[k] == c[0];
      } else {
        assert ec[k - 1] == c[k - 1 - |e|] && ec[k] == c[k - |e|];
      }
    }
  }

  /** An output line is an input line that is copied, or the comment or the
      tag of a marker. */
  ghost predicate Origin<L>(kd: Kind<L>, e: Kind<L>) {
    if kd.Inline? then e == Plain(kd.comment) || e == Bare(kd.tag) else e == kd
  }

  /** The input line output line `j` comes from. */
  lemma {:induction false} EmittedOrigin<L>(ks: seq<Kind<L>>, n: int, j: int) returns (k: int)
    requires 0 <= n <= |ks|
    requires 0 <= j < |Emitted(ks, n)|
    ensures 0 <= k < n && Origin(ks[k], Emitted(ks, n)[j])
  {
    var before := Emitted(ks, n - 1);
    EmittedStep(ks, n - 1);
    if j < |before| {
      k := EmittedOrigin(ks, n - 1, j);
    } else {
      k := n - 1;
    }
  }

  /** A line the pass does not change is copied as it is. */
  lemma {:induction false} UnchangedPrefix<L>(ks: seq<Kind<L>>, n: int)
    requires 0 <= n <= |ks|
    requires forall k :: 0 <= k < n ==> !Changes(ks, k)
    ensures Emitted(ks, n) == ks[..n]
  {
    if n > 0 {
      UnchangedPrefix(ks, n - 1);
      EmittedStep(ks, n - 1);
      assert !Changes(ks, n - 1);
      assert Contribution(ks, n - 1) == [ks[n - 1]];
      assert ks[..n] == ks[..n - 1] + [ks[n - 1]];
    }
  }

  /** The pass changes no line exactly when the lines are canonical. */
  lemma CanonicalIffNoChanges<L>(ks: seq<Kind<L>>)
    ensures CanonicalKinds(ks) <==> forall k :: 0 <= k < |ks| ==> !Changes(ks, k)
  {
    if CanonicalKinds(ks) {
      forall k | 0 <= k < |ks| ensures !Changes(ks, k) {
        assert !ks[k].Inline?;
        if k > 0 {
          assert !ks[k - 1].Inline?;
          assert !(ks[k - 1].Bare? && ks[k].Bare?);
        }
      }
    }
    if forall k :: 0 <= k < |ks| ==> !Changes(ks, k) {
      forall k | 0 <= k < |ks| ensures !ks[k].Inline? {
        assert !Changes(ks, k);
      }
      forall k | 0 < k < |ks| ensures !(ks[k - 1].Bare? && ks[k].Bare?) {
        assert !Changes(ks, k);
      }
    }
  }

  /** Output already written is never taken back. */
  lemma {:induction false} EmittedGrows<L>(ks: seq<Kind<L>>, m: int, n: int)
    requires 0 <= m <= n <= |ks|
    ensures Emitted(ks, m) <= Emitted(ks, n)
  {
    if m < n {
      EmittedGrows(ks, m, n - 1);
      EmittedStep(ks, n - 1);
    }
  }

  /** Handling line `n` appends its contribution. */
  lemma EmittedStep<L>(ks: seq<Kind<L>>, n: int)
    requires 0 <= n < |ks|
    ensures Emitted(ks, n + 1) == Emitted(ks, n) + Contribution(ks, n)
  {
  }

  /** Input line `k` ends up at `Emitted(ks, |ks|)[p..p + |c|]`, where `p` is
      the length of the output so far and `c` its contribution. */
  lemma ContributionInOutput<L>(ks: seq<Kind<L>>, k: int)
    requires 0 <= k < |ks|
    ensures var p := |Emitted(ks, k)|;
      var c := Contribution(ks, k);
      && p + |c| <= |Emitted(ks, |ks|)|
      && forall j :: 0 <= j < |c| ==> Emitted(ks, |ks|)[p + j] == c[j]
  {
    EmittedStep(ks, k);
    EmittedGrows(ks, k + 1, |ks|);
    PrefixAt(Emitted(ks, k), Contribution(ks, k), Emitted(ks, k + 1), Emitted(ks, |ks|));
  }

  lemma PrefixAt<T>(before: seq<T>, c: seq<T>, after: seq<T>, all: seq<T>)
    requires after == before + c && after <= all
    ensures |before| + |c| <= |all|
    ensures forall j :: 0 <= j < |c| ==> all[|before| + j] == c[j]
  {
    forall j | 0 <= j < |c| ensures all[|before| + j] == c[j] {
      assert all[|before| + j] == after[|before| + j];
    }
  }

  /** Two adjacent elements make a slice of length two. */
  lemma PairSlice<T>(s: seq<T>, p: int, x: T, y: T)
    requires 0 <= p && p + 2 <= |s| && s[p] == x && s[p + 1] == y
    ensures s[p..p + 2] == [x, y]
  {
  }

  /** A plain line is copied at the position reached when it is handled. */
  lemma CopiedAt<L>(ks: seq<Kind<L>>, k: int)
    requires 0 <= k < |ks|
    requires ks[k].Plain?
    ensures var p := |Emitted(ks, k)|;
      p < |Emitted(ks, |ks|)| && Emitted(ks, |ks|)[p] == ks[k]
  {
    ContributionInOutput(ks, k);
    var c := Contribution(ks, k);
    assert c == [ks[k]];
    assert c[0] == ks[k];
  }

  /** A marker not preceded by another becomes its comment and its tag at the
      position reached when it is handled. */
  lemma RewrittenAt<L>(ks: seq<Kind<L>>, k: int)
    requires 0 <= k < |ks|
    requires ks[k].Inline? && (k == 0 || !ks[k - 1].Inline?)
    ensures var p := |Emitted(ks, k)|;
      var e := Emitted(ks, |ks|);
      p + 2 <= |e| && e[p] == Plain(ks[k].comment) && e[p + 1] == Bare(ks[k].tag)
  {
    ContributionInOutput(ks, k);
    var c := Contribution(ks, k);
    assert c == [Plain(ks[k].comment), Bare(ks[k].tag)];
    assert c[0] == Plain(ks[k].comment) && c[1] == Bare(ks[k].tag);
  }

  /** The same, on the text of the lines. */
  lemma RewrittenLinesAt<L>(ks: seq<Kind<L>>, k: int)
    requires 0 <= k < |ks|
    requires ks[k].Inline? && (k == 0 || !ks[k - 1].Inline?)
    ensures var p := |Emitted(ks, k)|;
      var r := Lines(Emitted(ks, |ks|));
      p + 2 <= |r| && r[p..p + 2] == [ks[k].comment, ks[k].tag]
  {
    RewrittenAt(ks, k);
    var p := |Emitted(ks, k)|;
    var e := Emitted(ks, |ks|);
    var r := Lines(e);
    assert r[p] == e[p].line && r[p + 1] == e[p + 1].line;
    PairSlice(r, p, ks[k].comment, ks[k].tag);
  }

  /** The output is the input exactly when no line is changed. */
  lemma NoChangesIffSame<L>(ks: seq<Kind<L>>)
    ensures (forall k :: 0 <= k < |ks| ==> !Changes(ks, k)) <==> Emitted(ks, |ks|) == ks
  {
    CanonicalIffNoChanges(ks);
    EmittedFacts(ks, |ks|);
    if forall k :: 0 <= k < |ks| ==> !Changes(ks, k) {
      UnchangedPrefix(ks, |ks|);
      assert ks[..|ks|] == ks;
    }
  }

  /** A marker that starts a run of them becomes exactly its comment and tag,
      and the rest of the run contributes nothing. */
  lemma {:induction false} RunRewritten<L>(ks: seq<Kind<L>>, start: int, end: int)
    requires 0 <= start < end <= |ks|
    requires ks[start].Inline?
    requires start == 0 || !ks[start - 1].Inline?
    requires forall m :: start < m < end ==> ks[m].Inline?
    ensures Emitted(ks, end) == Emitted(ks, start) + [Plain(ks[start].comment), Bare(ks[start].tag)]
  {
    EmittedStep(ks, end - 1);
    if end > start + 1 {
      RunRewritten(ks, start, end - 1);
      assert ks[end - 2].Inline?;
    }
  }

  /** Appending tagged lines appends their text. */
  lemma LinesAppend<L>(a: seq<Kind<L>>, b: seq<Kind<L>>)
    ensures Lines(a + b) == Lines(a) + Lines(b)
  {
  }

  // ---------------------------------------------------------------------------
  // Properties of the output, on lines

  /** Each output line carries the tag its text has. */
  lemma EmittedTagged(lines: seq<string>, ks: seq<Kind<string>>, n: int, j: int)
    requires Tagged(lines, ks) && 0 <= n <= |lines|
    requires 0 <= j < |Emitted(ks, n)|
    ensures var e := Emitted(ks, n)[j];
      KindOf(e.line) == e
  {
    var k := EmittedOrigin(ks, n, j);
    assert ks[k] == KindOf(lines[k]);
    if ks[k].Inline? {
      InlineParts(lines[k]);
    }
  }

  /** The tags of the output are the ones the pass emitted. */
  lemma NormalizedKinds(lines: seq<string>)
    ensures Kinds(Normalized(lines)) == Emitted(Kinds(lines), |lines|)
  {
    var ks := TagLines(lines);
    TaggedIsKinds(lines, ks);
    var es := Emitted(ks, |lines|);
    forall j | 0 <= j < |es| ensures Kinds(Lines(es))[j] == es[j] {
      KindsAt(Lines(es), j);
      EmittedTagged(lines, ks, |lines|, j);
    }
  }

  /** The output holds no one-line marker and no two "@skip" lines in a row. */
  lemma NormalizedIsCanonical(lines: seq<string>)
    ensures Canonical(Normalized(lines))
  {
    NormalizedKinds(lines);
    EmittedFacts(Kinds(lines), |lines|);
  }

  /** A change shows in the output, and only a change does: the output equals
      the input exactly when no line is changed, that is when the file is
      canonical already. */
  lemma ChangesShow(lines: seq<string>)
    ensures (exists k :: 0 <= k < |lines| && Changes(Kinds(lines), k)) <==> Normalized(lines) != lines
    ensures Canonical(lines) <==> Normalized(lines) == lines
  {
    var ks := Kinds(lines);
    var es := Emitted(ks, |ks|);
    CanonicalIffNoChanges(ks);
    NoChangesIffSame(ks);
    KindsCarryLines(lines);
    NormalizedKinds(lines);
    assert Normalized(lines) == Lines(es);
    if Normalized(lines) == lines {
      assert Kinds(Lines(es)) == Kinds(lines);
    }
  }

  /** Running the pass twice changes nothing the second time. */
  lemma NormalizedIdempotent(lines: seq<string>)
    ensures Normalized(Normalized(lines)) == Normalized(lines)
  {
    NormalizedIsCanonical(lines);
    ChangesShow(Normalized(lines));
  }

  /** A line that is neither a one-line marker nor an `@skip` line is copied,
      at the position reached when it is handled; so such lines are copied in
      order. */
  lemma OrdinaryLineKept(lines: seq<string>, k: int)
    requires 0 <= k < |lines|
    requires !IsInlineSkip(lines[k]) && !IsBareSkip(lines[k])
    ensures var p := |Emitted(Kinds(lines), k)|;
      p < |Normalized(lines)| && Normalized(lines)[p] == lines[k]
  {
    KindsAt(lines, k);
    CopiedAt(Kinds(lines), k);
  }

  /** A one-line marker not preceded by another becomes, at the position
      reached when it is handled, the comment with its reason and the tag,
      both with the marker's indent. */
  lemma InlineLineRewritten(lines: seq<string>, k: int)
    requires 0 <= k < |lines|
    requires IsInlineSkip(lines[k])
    requires k == 0 || !IsInlineSkip(lines[k - 1])
    ensures var p := |Emitted(Kinds(lines), k)|;
      && p + 2 <= |Normalized(lines)|
      && Normalized(lines)[p..p + 2] == SkipLines(LeadingWs(lines[k]), InlineReason(lines[k]))
  {
    MarkerStartsRun(lines, k);
    KindsAt(lines, k);
    MarkerTag(lines[k]);
    RewrittenInFile(lines, k);
  }

  /** A one-line marker not preceded by another is tagged as one, and the line
      before it is not. */
  lemma MarkerStartsRun(lines: seq<string>, k: int)
    requires 0 <= k < |lines|
    requires IsInlineSkip(lines[k])
    requires k == 0 || !IsInlineSkip(lines[k - 1])
    ensures Kinds(lines)[k].Inline? && (k == 0 || !Kinds(lines)[k - 1].Inline?)
  {
    KindsAt(lines, k);
    InlineKind(lines[k]);
    if k > 0 {
      KindsAt(lines, k - 1);
      InlineKind(lines[k - 1]);
    }
  }

  lemma RewrittenInFile(lines: seq<string>, k: int)
    requires 0 <= k < |lines|
    requires Kinds(lines)[k].Inline?
    requires k == 0 || !Kinds(lines)[k - 1].Inline?
    ensures var p := |Emitted(Kinds(lines), k)|;
      var kd := Kinds(lines)[k];
      p + 2 <= |Normalized(lines)| && Normalized(lines)[p..p + 2] == [kd.comment, kd.tag]
  {
    RewrittenLinesAt(Kinds(lines), k);
  }

  /** A line is tagged as a one-line marker exactly when it matches the pattern. */
  lemma InlineKind(line: string)
    ensures KindOf(line).Inline? <==> IsInlineSkip(line)
  {
  }

  /** A line is tagged as an "@skip" line exactly when it trims to "@skip". */
  lemma BareKind(line: string)
    ensures KindOf(line).Bare? <==> IsBareSkip(line)
  {
    if IsBareSkip(line) {
      BareIsNotInline(line);
    }
  }

  // ---------------------------------------------------------------------------
  // Tags as the pass sees them, one line at a time

  /** `ks` holds the tag of every line of `lines`. A line's tag is only looked
      at once the line itself is. */
  ghost predicate Tagged(lines: seq<string>, ks: seq<Kind<string>>) {
    && |ks| == |lines|
    && forall k {:trigger KindOf(lines[k])} :: 0 <= k < |lines| ==> ks[k] == KindOf(lines[k])
  }

  lemma TagLines(lines: seq<string>) returns (ks: seq<Kind<string>>)
    ensures Tagged(lines, ks)
  {
    ks := Kinds(lines);
    forall k | 0 <= k < |lines| ensures ks[k] == KindOf(lines[k]) {
      KindsAt(lines, k);
    }
  }

  /** There is one way to tag a file. */
  lemma TaggedIsKinds(lines: seq<string>, ks: seq<Kind<string>>)
    requires Tagged(lines, ks)
    ensures ks == Kinds(lines)
  {
    forall k | 0 <= k < |lines| ensures ks[k] == Kinds(lines)[k] {
      assert ks[k] == KindOf(lines[k]);
      KindsAt(lines, k);
    }
  }

  /** What the pass reads off the tag of line `i`. */
  lemma TagAt(lines: seq<string>, ks: seq<Kind<string>>, i: int)
    requires Tagged(lines, ks) && 0 <= i < |lines|
    ensures ks[i].line == lines[i]
    ensures ks[i].Inline? <==> IsInlineSkip(lines[i])
  {
    assert ks[i] == KindOf(lines[i]);
  }

  /** One more line handled: a change among the first `i + 1` lines is one
      among the first `i` or at line `i`. */
  lemma ChangedStep<L>(ks: seq<Kind<L>>, i: int)
    requires 0 <= i < |ks|
    ensures (exists k :: 0 <= k < i + 1 && Changes(ks, k)) <==>
      (exists k :: 0 <= k < i && Changes(ks, k)) || Changes(ks, i)
  {
    if exists k :: 0 <= k < i + 1 && Changes(ks, k) {
      var k :| 0 <= k < i + 1 && Changes(ks, k);
      if k < i {
        assert exists k :: 0 <= k < i && Changes(ks, k);
      }
    }
  }

  /** Handling an "@skip" line the pass drops: nothing is written, and the
      pass has now changed something. */
  lemma DropStep<L>(ks: seq<Kind<L>>, i: int)
    requires 0 <= i < |ks| && ks[i].Bare? && i > 0 && !ks[i - 1].Plain?
    ensures Emitted(ks, i + 1) == Emitted(ks, i)
    ensures exists k :: 0 <= k < i + 1 && Changes(ks, k)
  {
    assert Changes(ks, i);
    EmittedStep(ks, i);
  }

  /** Handling a line the pass keeps: its text is written, and whether the
      pass has changed something stays as it was. */
  lemma CopyStep(ks: seq<Kind<string>>, i: int)
    requires 0 <= i < |ks| && !Changes(ks, i)
    ensures Lines(Emitted(ks, i + 1)) == Lines(Emitted(ks, i)) + [ks[i].line]
    ensures (exists k :: 0 <= k < i + 1 && Changes(ks, k)) <==> (exists k :: 0 <= k < i && Changes(ks, k))
  {
    EmittedStep(ks, i);
    LinesAppend(Emitted(ks, i), [ks[i]]);
    ChangedStep(ks, i);
  }

  /** Handling more lines keeps a change already seen. */
  lemma ChangesAfter<L>(ks: seq<Kind<L>>, m: int, n: int)
    requires 0 <= m <= n <= |ks|
    requires exists k :: 0 <= k < m && Changes(ks, k)
    ensures exists k :: 0 <= k < n && Changes(ks, k)
  {
    var k :| 0 <= k < m && Changes(ks, k);
    assert 0 <= k < n;
  }

  /** Once a line is handled, something has been written: the first line
      always contributes, and a later line is dropped only after output. */
  lemma {:induction false} EmittedNonEmpty<L>(ks: seq<Kind<L>>, n: int)
    requires 0 < n <= |ks|
    ensures Emitted(ks, n) != []
  {
    var e := Emitted(ks, n - 1);
    var c := Contribution(ks, n - 1);
    EmittedStep(ks, n - 1);
    if n == 1 {
      assert c != [];
    } else {
      EmittedNonEmpty(ks, n - 1);
      assert |e + c| >= |e| > 0;
    }
  }

  /** The last line written so far trims to "@skip" exactly when the last line
      handled was a marker or an "@skip" line. */
  lemma LastWritten(lines: seq<string>, ks: seq<Kind<string>>, i: int)
    requires Tagged(lines, ks) && 0 <= i <= |lines|
    ensures var out := Lines(Emitted(ks, i));
      (out != [] && IsBareSkip(out[|out| - 1])) <==> i > 0 && !ks[i - 1].Plain?
  {
    EmittedFacts(ks, i);
    var out := Emitted(ks, i);
    if out != [] {
      EmittedTagged(lines, ks, i, |out| - 1);
      BareKind(out[|out| - 1].line);
    }
  }

  // ---------------------------------------------------------------------------
  // The pass

  /** The two tests the pass makes on line `i`: whether it matches the
      one-line marker pattern, and whether it trims to "@skip". On the tag,
      these are exactly its being a marker and its being an "@skip" line. */
  method TestLine(lines: seq<string>, ghost ks: seq<Kind<string>>, i: int) returns (marker: bool, bare: bool)
    requires Tagged(lines, ks) && 0 <= i < |lines|
    ensures ks[i].line == lines[i]
    ensures marker <==> ks[i].Inline?
    ensures bare <==> ks[i].Bare?
  {
    var line := lines[i];
    var stripped := Strip(line);
    marker := IsInlineSkip(line);
    bare := stripped == "@skip";
    TagAt(lines, ks, i);
    assert ks[i] == KindOf(line);
    BareKind(line);
  }

  /** The duplicate test: the last line written so far trims to "@skip"
      exactly when the last line handled was a marker or an "@skip" line. */
  method LastIsSkip(lines: seq<string>, ghost ks: seq<Kind<string>>, i: int, newLines: seq<string>) returns (prevBare: bool)
    requires Tagged(lines, ks) && 0 <= i <= |lines|
    requires newLines == Lines(Emitted(ks, i)) && |newLines| > 0
    ensures prevBare <==> i > 0 && !ks[i - 1].Plain?
  {
    var prevStripped := Strip(newLines[|newLines| - 1]);
    prevBare := prevStripped == "@skip";
    LastWritten(lines, ks, i);
  }

  /** The indent and the reason of the one-line marker at line `i`: the
      comment and the tag it becomes are built from them. */
  method MarkerParts(lines: seq<string>, ghost ks: seq<Kind<string>>, i: int) returns (indentation: string, reason: string)
    requires Tagged(lines, ks) && 0 <= i < |lines| && ks[i].Inline?
    ensures indentation + "# SKIP REASON: " + reason + "\n" == ks[i].comment
    ensures indentation + "@skip\n" == ks[i].tag
  {
    var line := lines[i];
    TagAt(lines, ks, i);
    indentation := LeadingWs(line);
    reason := InlineReason(line);
    assert ks[i] == KindOf(line);
  }

  /** The one-line-marker branch of the pass, at the first marker of a run:
      it reads the indent and the reason, steps over the markers that directly
      follow, and emits the comment and the tag. `next` is the first line after
      the run. */
  method RewriteRun(lines: seq<string>, ghost ks: seq<Kind<string>>, i: int) returns (emitted: seq<string>, next: int)
    requires Tagged(lines, ks) && 0 <= i < |lines|
    requires ks[i].Inline? && (i == 0 || !ks[i - 1].Inline?)
    ensures i < next <= |lines|
    ensures emitted == [ks[i].comment, ks[i].tag]
    ensures forall m :: i <= m < next ==> ks[m].Inline?
    ensures next < |lines| ==> !ks[next].Inline?
    ensures Lines(Emitted(ks, next)) == Lines(Emitted(ks, i)) + emitted
  {
    var indentation, reason := MarkerParts(lines, ks, i);
    var j := i;
    while j + 1 < |lines| && IsInlineSkip(lines[j + 1])
      invariant i <= j < |lines|
      invariant forall m :: i <= m <= j ==> ks[m].Inline?
    {
      TagAt(lines, ks, j + 1);
      j := j + 1;
    }
    emitted := [indentation + "# SKIP REASON: " + reason + "\n"];
    emitted := emitted + [indentation + "@skip\n"];
    next := j + 1;
    if next < |lines| {
      TagAt(lines, ks, next);
    }
    assert Lines(Emitted(ks, next)) == Lines(Emitted(ks, i)) + emitted by {
      RunRewritten(ks, i, next);
      LinesAppend(Emitted(ks, i), [Plain(ks[i].comment), Bare(ks[i].tag)]);
    }
  }

  /** The per-file body of the normaliser: an index-driven scan that appends to
      the new line list and records whether anything was changed. It writes
      what the reference definition emits for the tags of the lines, and
      records a change exactly when some line is changed. */
  method ScanLines(lines: seq<string>, ghost ks: seq<Kind<string>>) returns (newLines: seq<string>, modified: bool)
    requires Tagged(lines, ks)
    ensures newLines == Lines(Emitted(ks, |lines|))
    ensures modified <==> exists k :: 0 <= k < |lines| && Changes(ks, k)
  {
    newLines := [];
    modified := false;
    var i := 0;
    while i < |lines|
      invariant 0 <= i <= |lines|
      invariant newLines == Lines(Emitted(ks, i))
      invariant modified <==> exists k :: 0 <= k < i && Changes(ks, k)
      invariant 0 < i < |lines| ==> !(ks[i - 1].Inline? && ks[i].Inline?)
    {
      var line := lines[i];
      var marker, bare := TestLine(lines, ks, i);

      if marker {
        var emitted, next := RewriteRun(lines, ks, i);
        newLines := newLines + emitted;
        modified := true;
        ChangedStep(ks, i);
        ChangesAfter(ks, i + 1, next);
        i := next;
        continue;
      }

      if bare && |newLines| > 0 {
        var prevBare := LastIsSkip(lines, ks, i, newLines);
        if prevBare {
          DropStep(ks, i);
          modified := true;
          i := i + 1;
          continue;
        }
      }

      assert !Changes(ks, i) by {
        if i > 0 {
          EmittedNonEmpty(ks, i);
        }
      }
      CopyStep(ks, i);
      newLines := newLines + [line];
      i := i + 1;
    }
  }

  /** The normaliser on one file: the new lines are the normal form of the
      old ones, and the file counts as modified exactly when some line is
      changed, that is exactly when the new lines differ from the old. */
  method NormalizeLines(lines: seq<string>) returns (newLines: seq<string>, modified: bool)
    ensures newLines == Normalized(lines)
    ensures modified <==> exists k :: 0 <= k < |lines| && Changes(Kinds(lines), k)
    ensures modified <==> newLines != lines
  {
    ghost var ks := TagLines(lines);
    newLines, modified := ScanLines(lines, ks);
    TaggedIsKinds(lines, ks);
    ChangesShow(lines);
  }

  // ---------------------------------------------------------------------------
  // Over the feature files

  /** The files written back once the files `ps` have been handled in order:
      each one the pass changes, with its new lines. */
  ghost function CleanedUp(files: map<string, seq<string>>, ps: seq<string>): map<string, seq<string>>
  {
    if ps == [] then map[]
    else
      var p := ps[|ps| - 1];
      var w := CleanedUp(files, ps[..|ps| - 1]);
      if p in files && Normalized(files[p]) != files[p] then w[p := Normalized(files[p])] else w
  }

  lemma {:induction false} CleanedUpSpec(files: map<string, seq<string>>, ps: seq<string>)
    ensures forall p :: p in CleanedUp(files, ps) <==> p in ps && p in files && Normalized(files[p]) != files[p]
    ensures forall p :: p in CleanedUp(files, ps) ==> CleanedUp(files, ps)[p] == Normalized(files[p])
  {
    if ps != [] {
      var init := ps[..|ps| - 1];
      CleanedUpSpec(files, init);
      assert forall p :: p in ps <==> p in init || p == ps[|ps| - 1] by {
        assert ps == init + [ps[|ps| - 1]];
      }
    }
  }

  /** `cleanup_skip_tags` over the listed feature files of an in-memory file
      system: the files it writes back, with their new contents. A listed path
      missing from `files` is passed over. */
  method CleanupFiles(paths: seq<string>, files: map<string, seq<string>>) returns (written: map<string, seq<string>>)
    ensures forall p :: p in written <==> p in paths && p in files && !Canonical(files[p])
    ensures forall p :: p in written ==> written[p] == Normalized(files[p]) && Canonical(written[p])
  {
    written := map[];
    for k := 0 to |paths|
      invariant written == CleanedUp(files, paths[..k])
    {
      var filepath := paths[k];
      assert paths[..k + 1][..k] == paths[..k];
      if filepath !in files {
        continue;
      }
      var lines := files[filepath];
      var newLines, modified := NormalizeLines(lines);
      if modified {
        written := written[filepath := newLines];
      }
    }
    assert paths[..|paths|] == paths;
    CleanedUpSpec(files, paths);
    forall p | p in files ensures Canonical(files[p]) <==> Normalized(files[p]) == files[p] {
      ChangesShow(files[p]);
    }
    forall p | p in files ensures Canonical(Normalized(files[p])) {
      NormalizedIsCanonical(files[p]);
    }
  }
}
