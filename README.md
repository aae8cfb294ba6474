# skip_failing_scenarios, modelled in Dafny

`scripts/skip_failing_scenarios.py` is a CI helper for an end-to-end test suite
written in Gherkin feature files. It has two modes:

- **skip** (the default). It reads the cucumber JSON reports of the CI shards.
  It collects every scenario with a failed step, keeps one record per scenario
  id, and sorts the records by `(uri, line)`. Then, file by file, it puts a
  `# SKIP REASON: <error>` comment and an `@skip` tag above each failing
  scenario line. A scenario that already carries a skip marker just above it
  gets nothing.
- **cleanup** (`--cleanup`). It normalises the annotations already in the
  feature files:
  - it rewrites the one-line form `@skip # reason` into the two-line form;
  - it swallows one-line markers that directly follow a rewritten one;
  - it drops an `@skip` line that directly follows another;
  - it writes a file back only when something changed.

The model covers three parts, without their file, JSON and console I/O:

- **`text.dfy`, module `Text`.** Python's string operations as the script uses
  them:
  - `strip`, `lstrip` and `rstrip` over the exact whitespace set of
    `str.isspace`, which is also what the regex class `\s` matches;
  - `startswith`, `endswith` and `in`;
  - `split('\n')[0]`;
  - the indent that `^(\s*)` captures;
  - code-point string order.
- **`reports.dfy`, module `Reports`.** The report records as datatypes, and
  `analyze_failures`:
  - the nested extraction loops, proved against a recursive reference
    definition `Extracted`;
  - the `seen_ids` dedup loop, proved against `FirstOccurrences`;
  - the sort by `(uri, line)`, as an insertion sort proved sorted and a
    permutation.
- **`writer.dfy`, module `Writer`.** The per-file body of `skip_failures`:
  - locating the scenario line;
  - the sanitised, length-capped reason;
  - the four-line already-skipped window;
  - the two-line insertion;
  - the descending sort by line;
  - the grouping of records by file;
  - the loop that decides which files are written back.
- **`cleanup.dfy`, module `Cleanup`.** The per-file body of
  `cleanup_skip_tags`: its index-driven `while` loop with the inner skip loop
  and the `modified` flag, proved against a reference definition.

The reference definition for the normaliser tags each input line with its kind:

- `Inline`: the one-line marker, carrying the two lines it becomes;
- `Bare`: a line that trims to `@skip`;
- `Plain`: anything else.

The output is then the concatenation of per-line contributions. Each
contribution depends only on the line and the one before it:

- a marker right after a marker is swallowed;
- a bare `@skip` right after a marker or a bare `@skip` is dropped.

A file is a sequence of lines, each keeping its `\n`, as `readlines` returns
them. The file system is a `map` from path to lines. The reports are parsed
JSON, given as datatypes: an absent key is `None`, and an absent list is the
empty sequence.

## Model

| member | source | states |
|---|---|---|
| Text.LeadingWsIsPrefix | scripts/skip_failing_scenarios.py:177-179 | the captured indent is the longest whitespace prefix of the line: a prefix, all blank, followed by a non-blank if anything |
| Text.LStripIsSuffix | scripts/skip_failing_scenarios.py:28 | `lstrip` keeps a suffix that starts with a non-blank and removes only blanks |
| Text.RStripIsPrefix | scripts/skip_failing_scenarios.py:31 | `rstrip` keeps a prefix that ends with a non-blank and removes only blanks |
| Text.StripTrims | scripts/skip_failing_scenarios.py:25 | what `strip` returns neither starts nor ends with whitespace |
| Text.StripIsSlice | scripts/skip_failing_scenarios.py:25 | `strip` returns the slice of the line between its leading and trailing whitespace runs |
| Text.FirstLineIsPrefix | scripts/skip_failing_scenarios.py:92 | `split('\n')[0]` is the prefix of the message up to its first newline, and it contains no newline |
| Text.FirstLineWithoutNewline | scripts/skip_failing_scenarios.py:92 | a message without a newline is its own first line |
| Text.FirstLineStripped | scripts/skip_failing_scenarios.py:92 | the trimmed first line has no newline; a single line that is already trimmed comes back unchanged |
| Text.TrimmedLineKept | scripts/skip_failing_scenarios.py:92 | a trimmed single line is its own trimmed first line |
| Text.StripTrimmed | scripts/skip_failing_scenarios.py:92 | a text with no surrounding whitespace is its own strip |
| Text.StrLeTotal | scripts/skip_failing_scenarios.py:114 | Python's string order on uris is total |
| Text.StrLeAntisymmetric | scripts/skip_failing_scenarios.py:114 | two uris that order both ways are equal |
| Text.StrLeTransitive | scripts/skip_failing_scenarios.py:114 | the string order is transitive |
| Text.LeadingWsOfIndented | scripts/skip_failing_scenarios.py:177-179 | the indent of `ws + t`, where `t` starts with a non-blank, is exactly `ws` |
| Text.StripOfIndented | scripts/skip_failing_scenarios.py:25 | stripping an indented text is the same as rstripping it without the indent |
| Text.LStripOfIndented | scripts/skip_failing_scenarios.py:28 | lstripping an indented text removes exactly the indent |
| Text.RStripKeepsPrefix | scripts/skip_failing_scenarios.py:196 | `rstrip` keeps a prefix that ends in a non-blank |
| Text.StripKeepsPrefix | scripts/skip_failing_scenarios.py:196 | an indented line that begins with a trimmed prefix still starts with that prefix after `strip` |
| Reports.FirstFailedStep | scripts/skip_failing_scenarios.py:86-93 | the index found is the first step whose status is "failed"; None means that no step failed |
| Reports.FirstFailedStepIs | scripts/skip_failing_scenarios.py:86-93 | the first failed step is the only index FirstFailedStep can return |
| Reports.DefaultErrorUnchanged | scripts/skip_failing_scenarios.py:90-92 | the default "Unknown error" survives the first-line-and-trim step unchanged |
| Reports.ErrorTextIsTrimmedLine | scripts/skip_failing_scenarios.py:90-92 | the recorded error is one line without surrounding whitespace; a message that already is one is kept as it is |
| Reports.ErrorTextOfMessage | scripts/skip_failing_scenarios.py:90-92 | the error text equals the loop's computation: default "Unknown error", and the first line trimmed only when the message is not empty |
| Reports.ScanSteps | scripts/skip_failing_scenarios.py:83-93 | `is_failed` is set exactly when some step failed, and `error_message` is then the error text of the first failed step |
| Reports.ElementFailureSpec | scripts/skip_failing_scenarios.py:80-102 | an element yields a record exactly when its type is "scenario" and some step failed; the record carries the feature's uri, the element's line, name and id, and the error of the first failed step |
| Reports.InElementsFailures | scripts/skip_failing_scenarios.py:79-102 | a record is extracted from a feature's elements exactly when one of them yields it |
| Reports.InFeaturesFailures | scripts/skip_failing_scenarios.py:74-102 | a record is extracted from a report exactly when some element of a feature with a non-empty uri yields it |
| Reports.InExtracted | scripts/skip_failing_scenarios.py:69-102 | a record is extracted from the reports exactly when some element of some feature of some report yields it |
| Reports.ExtractedFrom | scripts/skip_failing_scenarios.py:69-102 | every extracted record has a report, a feature and an element that yield it |
| Reports.ExtractedFromAt | scripts/skip_failing_scenarios.py:69-102 | every record that an element yields is extracted |
| Reports.NoFailedStepNoFailure | scripts/skip_failing_scenarios.py:83-102 | reports without a failed step yield no records |
| Reports.ScanFeature | scripts/skip_failing_scenarios.py:75-102 | the element loop for one feature appends exactly that feature's records, and none when its uri is missing or empty |
| Reports.ScanReport | scripts/skip_failing_scenarios.py:74-102 | the feature loop appends exactly the report's records, in order |
| Reports.ExtractFailures | scripts/skip_failing_scenarios.py:67-102 | the report loop collects exactly `Extracted(reports)`, in report, feature and element order |
| Reports.Ids | scripts/skip_failing_scenarios.py:107-112 | every record's id is among the ids collected |
| Reports.InIds | scripts/skip_failing_scenarios.py:107-112 | every collected id is carried by some record |
| Reports.FirstOccurrences | scripts/skip_failing_scenarios.py:107-112 | the deduplicated list has pairwise-distinct ids and keeps every id of the input |
| Reports.FirstOccurrencesAreFirst | scripts/skip_failing_scenarios.py:107-112 | each kept record is the first record of its id in the input |
| Reports.Dedup | scripts/skip_failing_scenarios.py:107-112 | the `seen_ids` loop returns exactly FirstOccurrences of its input |
| Reports.LocationLeTransitive | scripts/skip_failing_scenarios.py:114 | the `(uri, line)` key order is transitive |
| Reports.LocationLeTotal | scripts/skip_failing_scenarios.py:114 | the `(uri, line)` key order is total |
| Reports.InsertByLocation | scripts/skip_failing_scenarios.py:114 | inserting into a sorted list gives a sorted list holding the old records plus the new one |
| Reports.InsertAtHead | scripts/skip_failing_scenarios.py:114 | a record not after the head of a sorted list may go in front of it |
| Reports.InsertAfterHead | scripts/skip_failing_scenarios.py:114 | putting the head back in front of the list the new record went into keeps the result sorted and a permutation |
| Reports.SortByLocation | scripts/skip_failing_scenarios.py:114 | the sort by `(uri, line)` returns a sorted permutation of its input |
| Reports.PermutationKeepsIds | scripts/skip_failing_scenarios.py:107-115 | sorting keeps the ids distinct, keeps the same ids and the same records |
| Reports.AnalyzeFailures | scripts/skip_failing_scenarios.py:65-115 | the result is the extracted records deduplicated by id and sorted; it is sorted by `(uri, line)`, has distinct ids, covers every extracted id, and each record is the first of its id |
| Writer.FindFrom | scripts/skip_failing_scenarios.py:161-167 | the scan from a start index finds the first scenario line at or after it, or reports that there is none |
| Writer.FindScenario | scripts/skip_failing_scenarios.py:160-168 | the chosen index is the first line whose trimmed text ends with the name, starts with "Scenario" and contains the name; None when no line qualifies |
| Writer.FirstScenarioLine | scripts/skip_failing_scenarios.py:160-168 | a qualifying line with no qualifying line before it is the one FindScenario chooses |
| Writer.NoScenarioLine | scripts/skip_failing_scenarios.py:169-172 | with no qualifying line, FindScenario returns None |
| Writer.Locate | scripts/skip_failing_scenarios.py:153-172 | `entry_found` is set exactly when a scenario line exists, `line_idx` is the first one, and it stays -1 otherwise |
| Writer.TestScenarioLine | scripts/skip_failing_scenarios.py:162-164 | the two nested tests accept a line exactly when it is a scenario line for the name |
| Writer.Unquoted | scripts/skip_failing_scenarios.py:181 | `replace('"', "'")` keeps the length and maps every character through the quote replacement |
| Writer.SkipReason | scripts/skip_failing_scenarios.py:181-184 | the reason contains no `"` and is at most 100 characters long; a short error keeps its length and characters (quotes replaced); a long one becomes its first 97 characters followed by "..." |
| Writer.CheckAlreadySkipped | scripts/skip_failing_scenarios.py:189-200 | the backwards search reports a marker exactly when, within the 4 lines above the scenario line, a trimmed line starts with `@skip`, `@ignore` or `# SKIP REASON:` before any line starting with `Scenario` or `Feature` |
| Writer.Annotated | scripts/skip_failing_scenarios.py:149-206 | handling a failure never shortens the file, and a file of unchanged length is unchanged |
| Writer.AnnotateFailure | scripts/skip_failing_scenarios.py:151-206 | one iteration of the failure loop produces `Annotated(lines, failure)`, and it inserts exactly when the lines change |
| Writer.TagLineStrip | scripts/skip_failing_scenarios.py:187 | the inserted tag line trims to "@skip" |
| Writer.CommentLineStrip | scripts/skip_failing_scenarios.py:186 | the inserted comment line trims to a text starting with "# SKIP REASON:" |
| Writer.SkipLinesAreMarkers | scripts/skip_failing_scenarios.py:186-196 | both inserted lines are skip markers and neither is a scenario line |
| Writer.ScenarioLineIsSectionStart | scripts/skip_failing_scenarios.py:164-199 | a scenario line stops the backwards search and is not itself a marker |
| Writer.NoScenarioAfterInsert | scripts/skip_failing_scenarios.py:161-205 | inserting two non-scenario lines creates no scenario line before the old ones |
| Writer.FindAfterInsert | scripts/skip_failing_scenarios.py:160-205 | after inserting two non-scenario lines, the scenario is found at the same index when it was above the insertion point and 2 lower otherwise; a missing one is still missing |
| Writer.AnnotatedInsertion | scripts/skip_failing_scenarios.py:176-206 | the lines are unchanged exactly when the scenario is missing or already skipped; otherwise the result is `lines[..idx]` + [indent + "# SKIP REASON: " + reason + "\n", indent + "@skip\n"] + `lines[idx..]`, 2 lines longer, with the indent the scenario line's leading whitespace |
| Writer.AnnotatedSettles | scripts/skip_failing_scenarios.py:189-206 | after a failure is handled, its scenario is missing or already skipped |
| Writer.InsertedIsSettled | scripts/skip_failing_scenarios.py:189-205 | after the insertion, the scenario sits 2 lines lower with the new tag directly above it |
| Writer.MarkerAfterInsert | scripts/skip_failing_scenarios.py:193-205 | an insertion outside the window between a marker and its scenario line keeps the marker in that window |
| Writer.SettledMeans | scripts/skip_failing_scenarios.py:189-206 | handling a failure leaves the lines unchanged exactly when its scenario is missing or already skipped |
| Writer.AnnotatedIdempotent | scripts/skip_failing_scenarios.py:189-208 | handling the same failure a second time inserts nothing |
| Writer.AnnotatedKeepsSettled | scripts/skip_failing_scenarios.py:149-206 | handling one failure does not unsettle another failure that was already settled |
| Writer.AnnotatedAll | scripts/skip_failing_scenarios.py:149-206 | the failure loop never shortens the file, and a file of unchanged length is unchanged |
| Writer.AnnotatedAllSettles | scripts/skip_failing_scenarios.py:149-206 | after the failure loop, every failure of the file is settled |
| Writer.SettlesStep | scripts/skip_failing_scenarios.py:149-206 | one more iteration keeps the earlier failures settled and settles the new one |
| Writer.AnnotatedKeepsAllSettled | scripts/skip_failing_scenarios.py:149-206 | handling a failure keeps a whole list of settled failures settled |
| Writer.AllSettledUnchanged | scripts/skip_failing_scenarios.py:149-208 | when every failure is already settled, the failure loop changes nothing |
| Writer.AnnotatedFileIdempotent | scripts/skip_failing_scenarios.py:145-208 | running the per-file body a second time on its own output changes nothing, so the file would not be written again |
| Writer.InsertByLineDesc | scripts/skip_failing_scenarios.py:146 | inserting into a list sorted by descending line keeps it sorted, and it holds the old records plus the new one |
| Writer.InsertBelowHead | scripts/skip_failing_scenarios.py:146 | putting the head back in front keeps the descending order and the permutation |
| Writer.LinesAtMost | scripts/skip_failing_scenarios.py:146 | a permutation of records that are all at or below a line stays at or below it |
| Writer.SortByLineDesc | scripts/skip_failing_scenarios.py:146 | `sort(key=line, reverse=True)` returns a permutation sorted by descending line |
| Writer.AnnotateFile | scripts/skip_failing_scenarios.py:145-208 | the per-file body returns `AnnotatedFile(lines, failures)`; `modified` is set exactly when the lines changed, that is exactly when they grew |
| Writer.NoFailuresNoChange | scripts/skip_failing_scenarios.py:121-123 | a file with no failures is left as it is |
| Writer.UrisInOrderSpec | scripts/skip_failing_scenarios.py:126-133 | the dict's key order holds exactly the records' uris, each once |
| Writer.GroupsOfAt | scripts/skip_failing_scenarios.py:129-133 | for any one uri: it is a key of the dict built record by record exactly when it is in the key order, its group is its records in input order, and a uri that is not a key has no records |
| Writer.GroupsOfSpec | scripts/skip_failing_scenarios.py:129-133 | the same, for all uris at once |
| Writer.GroupByUri | scripts/skip_failing_scenarios.py:126-133 | `files_to_modify` has exactly the uris of the records, in first-appearance order, and maps each uri to its records in input order |
| Writer.WrittenBackSpec | scripts/skip_failing_scenarios.py:135-212 | a file is written back exactly when it was handled, exists, and its lines changed; what is written is the per-file result |
| Writer.WriteBack | scripts/skip_failing_scenarios.py:135-212 | the loop over the grouped files writes back exactly the WrittenBack map |
| Writer.SkipFailures | scripts/skip_failing_scenarios.py:117-212 | `skip_failures` writes back exactly the existing files whose lines the writer changes for their share of the analysed failures, each with its annotated lines; nothing is written when there are no failures |
| Cleanup.InlineReasonIsOneLine | scripts/skip_failing_scenarios.py:28-34 | the reason captured from a one-line marker contains no newline |
| Cleanup.BareIsNotInline | scripts/skip_failing_scenarios.py:28-49 | a line that trims to "@skip" is never a one-line marker, so the two branches of the pass never compete |
| Cleanup.KindsAt | scripts/skip_failing_scenarios.py:23-28 | the kind at index k is the kind of line k |
| Cleanup.KindOfLine | scripts/skip_failing_scenarios.py:23-28 | the kind of a line carries that line |
| Cleanup.KindsCarryLines | scripts/skip_failing_scenarios.py:23-28 | the lines of the kinds are the original lines |
| Cleanup.RewrittenKinds | scripts/skip_failing_scenarios.py:42-43 | the emitted comment is an ordinary line and the emitted tag trims to "@skip" |
| Cleanup.InlineParts | scripts/skip_failing_scenarios.py:42-43 | the two lines a marker becomes are an ordinary line and a bare "@skip" |
| Cleanup.MarkerTag | scripts/skip_failing_scenarios.py:28-43 | a marker line is tagged with exactly the two lines it is rewritten to |
| Cleanup.InlineKind | scripts/skip_failing_scenarios.py:28 | a line is tagged as a marker exactly when it matches `^(\s*)@skip\s+#` |
| Cleanup.BareKind | scripts/skip_failing_scenarios.py:49 | a line is tagged bare exactly when it trims to "@skip" |
| Cleanup.EmittedFacts | scripts/skip_failing_scenarios.py:28-58 | every prefix of the output has no marker and no two adjacent "@skip" lines, and its last line trims to "@skip" exactly when the last input line handled was a marker or an "@skip" |
| Cleanup.CanonicalAppend | scripts/skip_failing_scenarios.py:49-55 | appending canonical lines keeps the output canonical unless an "@skip" follows an "@skip" |
| Cleanup.EmittedOrigin | scripts/skip_failing_scenarios.py:20-58 | every output line is an input line copied, or one of the two lines of a rewritten marker |
| Cleanup.UnchangedPrefix | scripts/skip_failing_scenarios.py:57-58 | while no line is changed, the output is the input copied |
| Cleanup.CanonicalIffNoChanges | scripts/skip_failing_scenarios.py:20-58 | the pass changes no line exactly when the input has no marker and no two adjacent "@skip" lines |
| Cleanup.EmittedGrows | scripts/skip_failing_scenarios.py:20-58 | the output only grows: `new_lines` is never cut back |
| Cleanup.EmittedStep | scripts/skip_failing_scenarios.py:20-58 | handling one more line appends that line's contribution |
| Cleanup.ContributionInOutput | scripts/skip_failing_scenarios.py:20-58 | each line's contribution appears in the final output at the position reached before it |
| Cleanup.CopiedAt | scripts/skip_failing_scenarios.py:57 | an ordinary line appears in the output at the position reached before it |
| Cleanup.RewrittenAt | scripts/skip_failing_scenarios.py:42-43 | a marker that starts a run is replaced in the output by its comment and its tag |
| Cleanup.RewrittenLinesAt | scripts/skip_failing_scenarios.py:42-43 | the same, on the output lines |
| Cleanup.NoChangesIffSame | scripts/skip_failing_scenarios.py:20-58 | the output equals the input exactly when no line is changed |
| Cleanup.RunRewritten | scripts/skip_failing_scenarios.py:28-46 | a run of markers contributes exactly the two lines of its first marker |
| Cleanup.EmittedTagged | scripts/skip_failing_scenarios.py:20-58 | every output line is tagged with the kind its text has |
| Cleanup.NormalizedKinds | scripts/skip_failing_scenarios.py:20-58 | the kinds of the output lines are the kinds the reference definition emits |
| Cleanup.NormalizedIsCanonical | scripts/skip_failing_scenarios.py:28-58 | the output has no one-line marker and no two adjacent lines that trim to "@skip" |
| Cleanup.ChangesShow | scripts/skip_failing_scenarios.py:20-63 | some line is changed exactly when the output differs from the input, and the input is canonical exactly when it is its own output |
| Cleanup.NormalizedIdempotent | scripts/skip_failing_scenarios.py:20-63 | normalising twice is normalising once, so a cleaned file is not rewritten by a second run |
| Cleanup.OrdinaryLineKept | scripts/skip_failing_scenarios.py:57-58 | every line that is neither a marker nor a bare "@skip" is copied verbatim, in order, at the position reached before it |
| Cleanup.InlineLineRewritten | scripts/skip_failing_scenarios.py:28-46 | a marker not preceded by a marker becomes exactly `indent + "# SKIP REASON: " + reason + "\n"` and `indent + "@skip\n"`, with the reason trimmed and one leading "Error: " removed |
| Cleanup.MarkerStartsRun | scripts/skip_failing_scenarios.py:28-37 | a marker after a non-marker starts a run of markers |
| Cleanup.RewrittenInFile | scripts/skip_failing_scenarios.py:28-46 | a run's first marker is replaced in the output by its two lines |
| Cleanup.TagLines | scripts/skip_failing_scenarios.py:23-28 | every line gets its kind |
| Cleanup.TaggedIsKinds | scripts/skip_failing_scenarios.py:23-28 | tagging line by line gives the reference kinds |
| Cleanup.TagAt | scripts/skip_failing_scenarios.py:24-28 | a tag carries its line, and it is a marker exactly when the line matches the marker pattern |
| Cleanup.ChangedStep | scripts/skip_failing_scenarios.py:39-44 | the changes up to line i + 1 are those up to i plus line i's own |
| Cleanup.DropStep | scripts/skip_failing_scenarios.py:49-55 | a bare "@skip" after a marker or an "@skip" adds nothing to the output and counts as a change |
| Cleanup.CopyStep | scripts/skip_failing_scenarios.py:57-58 | an unchanged line is appended as it is and adds no change |
| Cleanup.ChangesAfter | scripts/skip_failing_scenarios.py:36-44 | once a change has happened, it stays recorded |
| Cleanup.EmittedNonEmpty | scripts/skip_failing_scenarios.py:49 | after the first line, `new_lines` is never empty |
| Cleanup.LastWritten | scripts/skip_failing_scenarios.py:49-51 | the last line written trims to "@skip" exactly when the line before the current one was a marker or an "@skip" |
| Cleanup.TestLine | scripts/skip_failing_scenarios.py:24-28 | the marker test and the "@skip" test agree with the line's kind |
| Cleanup.LastIsSkip | scripts/skip_failing_scenarios.py:49-51 | the duplicate test on `new_lines[-1]` holds exactly when the previous input line was a marker or an "@skip" |
| Cleanup.MarkerParts | scripts/skip_failing_scenarios.py:28-34 | the captured indent and cleaned reason build exactly the two lines the marker is tagged with |
| Cleanup.RewriteRun | scripts/skip_failing_scenarios.py:28-46 | the marker branch, with its inner loop, consumes the whole run of markers and emits exactly the first marker's two lines |
| Cleanup.ScanLines | scripts/skip_failing_scenarios.py:20-58 | the `while` loop produces the reference output, and `modified` is set exactly when some line is changed |
| Cleanup.NormalizeLines | scripts/skip_failing_scenarios.py:20-60 | the per-file body returns the normal form, and `modified` (which decides the write-back) is set exactly when the lines changed |
| Cleanup.CleanedUpSpec | scripts/skip_failing_scenarios.py:13-63 | a file is written back exactly when it was listed, exists and the pass changes it |
| Cleanup.CleanupFiles | scripts/skip_failing_scenarios.py:13-63 | `cleanup_skip_tags` writes back exactly the existing listed files that are not canonical, each with its canonical normal form |

## Left out

- File I/O is not modelled: the glob calls, `os.path.exists`, `open`, `readlines` and `writelines`. Files are a `map` from path to lines, and reports are parsed datatypes.
- `json.load` is not modelled. Neither is the broad `except Exception`: a report that fails to load is simply absent from the input. A report that raises partway through is not modelled.
- JSON `null` for a record's `line`, `name`, `id` or error message is not modelled. Those fields are a string and an int. An absent key is `None` or, for lists, the empty sequence.
- `argparse` and the `__main__` dispatch are not modelled.
- The `print` progress and warning lines are not modelled.
- The regex engine is replaced by character-level predicates. Both patterns match at the start of the line. The `(.*)` group stops at the first newline.
- `expected_line` (line 152) is computed but never used, so it does not appear in the model.
- The glob's file order is a parameter: `paths` in CleanupFiles. `sorted(set(...))` is left to the caller.
- Reports.SortByLocation: the model sorts by insertion rather than Timsort. It is proved sorted and a permutation. Its stability is not stated as a property. The insertion places each record ahead of the records equal to it, which keeps input order like Python's sort.
- Writer.SortByLineDesc: the model sorts by insertion rather than Timsort. It is proved sorted and a permutation. Stability is not stated, as for SortByLocation.
- Writer.AnnotateFailure: `lines.insert` on a Python list is modelled as reassigning a sequence value. The list is local to the per-file loop, so there is no aliasing to lose.
- Cleanup.ScanLines: the inner loop of the source sets `modified` on every swallowed marker. The model sets it once per marker run, after RewriteRun returns. The flag's final value is the same.
