# Prolewatch in Dafny

Prolewatch is a gate around AUR builds.  It inspects recipes, sources and built
packages, shows the user a briefing, and lets a build phase start only on a
decision about exactly the bytes that were inspected.  This project models the
parts of it that decide something, and proves what they promise.

| files | what they model |
|---|---|
| `UnifiedDiff`, `UnifiedDiffHeaders`, `UnifiedDiffGrammar`, `UnifiedDiffPrinting` | the line machine that blanks the removed lines of a patch, against a recursive grammar of the "Diff -u Output Format" of the POSIX.1-2017 `diff` utility |
| `ShellComments`, `RuleScan`, `RuleScanCoverage`, `RuleScanContext`, `RuleScanDiffs`, `RuleScanResults` | the comment masker and the chunked rule scan with its 16 KiB overlap, against a look at the whole stream, for rules that see the bytes next to a match; what it finds in patches, and what else it returns |
| `ShellWord`, `ShellQuoting`, `ShellReading` | the word evaluator: its round trips, and its agreement with sections 2.2 and 2.3 of the POSIX.1-2017 Shell Command Language |
| `StaticChecksums`, `StaticChecksumsComplete`, `StaticChecksumsSound`, `StaticChecksumsShell`, `StaticChecksumsStops`, `StaticChecksumsLimits` | the abstract interpretation of PKGBUILD checksum arrays, against an execution of the same statements, which may end anywhere; scripts that are plain by their text; where execution departs |
| `MTree`, `MTreeRecords`, `MTreeFilter`, `PackageRewrite`, `PackageRewriteExact` | the .MTREE reader and what its records say, the line filter, and the rewrite that drives both archive and .MTREE with one drop set; what is left, from the strip list alone |
| `ArchiveScan`, `ArchiveBudgets`, `ArchiveContents`, `XzHeader`, `XzAccepted` | recursive archive scanning under aggregate limits, what its result says of the archive, and the xz header check against sections 1.2, 3.1 and 5.3.1 of The .xz File Format |
| `Utf8`, `Utf8Scalars`, `SelectionBudget`, `SelectionExact`, `ReviewBatches`, `ReviewPieces`, `ReviewText`, `VerdictCheck` | what text is reviewed, how it is cut, made valid UTF-8 (table 3-7 of the Unicode standard; section 3 of RFC 3629) and packed, what of it arrives, and what answers are accepted |
| `DecisionPolicy`, `DecisionOutcomes`, `ReportCoherence` | assessment, carry-over and evaluation of a scan, what they come to for a reader of the report, and report validation |
| `DecisionProtocol`, `DecisionRuns`, `Approvals` | scans, markers, one-time tokens and phase starts as interleaved steps of many processes; runs in which evaluation builds every report |
| `MonitorHandoff` | the goroutines and the one-slot channel around the freeze of declared sources |
| `Transcript` | the buffer that keeps the end of a build's output |
| `Text` | byte-string helpers |

Code that works step by step is a class or a method with loops, proved equal to a
function of its inputs or its old state; the theorems are lemmas about those
functions.  What such a function says is also told without it, from the bytes, members
or fields it is about: most of these lemmas have names that end in `Exactly`.  Byte
strings are Dafny strings: what is proved of every sequence of characters holds of
every sequence of bytes.  Library code (regular expressions, the Bash parser,
decompressors, hashing, sorting) is a function-valued parameter, with what is assumed
of it stated as a predicate.

Where the code does less than it promises, there is a concrete input and, for all
inputs, when it does meet the promise:

- an overfull scan window can hide a later rule (`RuleScanCoverage.OverfullWindowHidesARule`;
  exactly when: `MissedExactly`);
- the end of a scan window can pass for a word boundary, so that a cut makes a match
  (`RuleScanContext.CutMakesAMatch`; only there: `OnlyCutsAdd`; exactly what is found:
  `FoundExactly`);
- a character across a cut reaches the provider as replacement characters
  (`ReviewText.CutCharacterIsLost`; exactly when a file arrives: `TextSurvivesExactly`);
- declared archive sizes can wrap a 64-bit counter (`ArchiveBudgets.WrappedSizeIsNotSeen`;
  exactly when the counters still agree: `CountedAgreesExactly`, `ItemsAgreeExactly`,
  `ScanAgreesExactly`, `CountersAgreeExactly`);
- evaluation can build a report that the store refuses (`ReportCoherence.ModelEscapeIsRefused`,
  `DeterministicModeRefuses`; exactly when: `AcceptedExactly`);
- a block written while a phase is starting is not seen (`DecisionProtocol.LateBlockIsNotSeen`;
  exactly when the last marker allows: `StartsAreAuthorized`);
- only the first xz block header is looked at (`XzHeader.LaterDictionariesAreNotSeen`,
  `OnlyTheFirstHeaderCounts`);
- the word evaluator departs from the shell at four kinds of spot, each with a word
  that shows it (`ShellReading.MisreadsApostrophe`, `MisreadsHash`, `MisreadsContinuedLine`,
  `MisreadsNewline`).  Without them it agrees (`AgreesWithTheShell`); for words without
  apostrophes inside double quotes that is exact (`ValueIsTheShellsExactly`), and for the
  others no condition on the spots alone is (`ApostrophesMayCancel`);
- the checksum analysis is right about every execution that is regular where it
  assigns and comes to the last assignment of the array (`StaticChecksumsSound`).  For
  scripts whose values the analysis knows from plain words this follows from their
  text (`StaticChecksumsShell.StaticScriptsAreReadTruly`).  An opaque command may end the
  script before (`StaticChecksumsStops.ReturnIsNotSeen`): a report is safe from that
  exactly when no such command runs in the foreground (`ReportIsSafeExactly`), and after
  one that only ends the script it is right exactly when the statements before report
  the same (`StaticChecksumsSound.StopMattersExactly`).  Regularity is a sufficient
  condition; `StaticChecksumsLimits` has a script for each of its parts: background
  statements, attributes set by a declaration or behind an opaque command, effects of
  words and of indices, field splitting, and misread words (for arrays, exactly when:
  `StaticChecksumsShell.ArrayIsTrueExactly`);
- a transcript without a limit drops everything without saying so
  (`Transcript.UnlimitedDropsInSilence`).

Check the project with `dafny verify dfyconfig.toml`.

## Model

| member | source | states |
|---|---|---|
| UnifiedDiff.UnifiedDiffBehaviorText | internal/brief/diff.go:30-147 | the in-place loop over offsets, flags and counters returns the view and verdict of the line-by-line specification, or the unchanged text; what lines the specification takes for noise and headers is UnifiedDiffGrammar.NoiseExactly and UnifiedDiffHeaders.CountsExactly |
| UnifiedDiffGrammar.PrintedDiffAccepted | internal/brief/diff.go:60-147 | every well-formed diff, printed, is accepted by the machine, with the printed removals as its flags |
| UnifiedDiffGrammar.AcceptsExactlyTheGrammar | internal/brief/diff.go:30-147 | a text is accepted if and only if it has a patch name and spells some diff: header pairs, hunks whose headers are spelled as the format says and whose lines meet both counts, optional markers, and noise, told by its bytes, that cannot be mistaken |
| UnifiedDiffGrammar.MasksExactlyTheRemovals | internal/brief/diff.go:60-147 | whichever way a text is read as a diff, exactly that diff's removed lines are blanked |
| UnifiedDiffGrammar.NoiseExactly | internal/brief/diff.go:103-147 | outside hunks a line is passed over if and only if it is no header, hunk, marker or binary patch by its first bytes and does not begin with a minus, a plus or a blank |
| UnifiedDiffHeaders.CountsExactly | internal/brief/diff.go:149-176 | a line is read as a hunk header with two counts if and only if it is spelled as the format says, with these counts and numbers below 2^64 |
| UnifiedDiffPrinting.ViewLineByLine | internal/brief/diff.go:44-60 | the lines of an accepted view are the lines of the text, each kept or blanked in place |
| UnifiedDiffPrinting.ViewKeepsShape | internal/brief/diff.go:44-60 | accepted or not, the view has the length and the newlines of the text and differs by spaces only |
| UnifiedDiffPrinting.PrintedDiffIsMasked | internal/brief/diff.go:30-147 | printing any structured diff and masking it accepts it and blanks exactly its removals |
| UnifiedDiffPrinting.HeaderCountsRoundTrip | internal/brief/diff.go:149-176 | the counts of every header a diff tool writes are read back, short forms and section text included, below 2^64 |
| UnifiedDiffPrinting.EndingsDoNotMatter | internal/brief/diff.go:44-60 | a line is read without its newline and without one carriage return before it, and nothing else is taken off |
| ShellComments.ShellCommentMasker.Mask | internal/brief/rules.go:187-217 | the two-flag masker, fed a chunk, returns and reaches what the specification says of its state and the chunk |
| ShellComments.MaskAppend | internal/brief/rules.go:187-217 | masking chunk by chunk is masking the whole |
| ShellComments.MasksExactlyTheComments | internal/brief/rules.go:187-217 | a byte is blanked exactly when it stands in a line whose first ink is a number sign, at or after it |
| RuleScan.PreparedFindings | internal/brief/rules.go:99-165 | the rule loop reports, rule after rule until the limit is exceeded, each match at its line and with its evidence, and then the findings of the other checks; which of these reach the result is RuleScanResults.ExtraInResultExactly |
| RuleScan.RepresentativeFindings | internal/brief/rules.go:312-327 | the capped list keeps hard findings and at most three soft ones a rule |
| RuleScan.WindowBytes | internal/brief/rules.go:250-290 | for every split into reads the scanned buffers are the last 16384 bytes before the read and the read itself, masked as the whole stream is; the line base counts the newlines before them and is never negative |
| RuleScan.ScanReader | internal/brief/rules.go:219-310 | the read loop with its overlap, masker, deduplication, limits and diff path returns what the specification says for every split |
| RuleScanCoverage.WindowCovers | internal/brief/rules.go:240-290 | every stretch of up to 16385 bytes lies in the window of some read, however the stream is cut |
| RuleScanCoverage.RepresentativeNames | internal/brief/rules.go:312-327 | capping repetitions makes no rule appear or disappear |
| RuleScanCoverage.RepresentativeKeepsHard | internal/brief/rules.go:312-327 | no hard finding is capped away |
| RuleScanCoverage.InResultExactly | internal/brief/rules.go:99-310 | a rule is in the result if and only if it had its turn and matched in some window |
| RuleScanCoverage.MissedExactly | internal/brief/rules.go:99-165 | a rule whose first match does not depend on how many are asked for is missing if and only if in every window where it matches earlier rules had already exceeded the limit |
| RuleScanCoverage.ReportedLinesAreTrue | internal/brief/rules.go:99-310 | each pattern finding names, by its true line number, a stretch of the stream that the rule matches in some window |
| RuleScanCoverage.OverfullWindowHidesARule | internal/brief/rules.go:99-165 | with limit 3 the text "aaaab" is scanned successfully and the rule for b is not in the result |
| RuleScanContext.FoundExactly | internal/brief/rules.go:37-310 | while no window is overfull, a rule that sees one byte on either side of a match is in the result if and only if some window shows one of its matches in the stream or makes one |
| RuleScanContext.OnlyCutsAdd | internal/brief/rules.go:37-310 | if such a rule is in the result and matches nowhere in the stream, some window made the match at a cut, at its first or behind its last byte |
| RuleScanContext.ShortMatchesAreFound | internal/brief/rules.go:240-310 | while no window is overfull, every match of at most 16383 bytes is found, or 16385 for a rule that sees no neighbours, whatever other matches the rule may have |
| RuleScanContext.ScanAgreesWithStream | internal/brief/rules.go:99-310 | for a rule with such matches only, the chunked scan finds it if and only if it matches in the stream or a window makes a match, and without neighbours if and only if it matches in the stream |
| RuleScanContext.CutMakesAMatch | internal/brief/rules.go:240-310 | a rule for a whole word is in the result for the reads "a" and "b", and not for the read "ab" |
| RuleScanDiffs.DiffsAreSearchedWhole | internal/brief/rules.go:291-310 | in a patch that was read whole and accepted as a diff, a rule is in the result if and only if it matches in the text it looks at, whatever else it sees there and however the stream was read; no window can be overfull |
| RuleScanDiffs.PatchesAreSearchedExactly | internal/brief/rules.go:219-310 | any patch is searched like that when it is read as a diff, and otherwise a rule is in the result if and only if it had its turn and matched in some window |
| RuleScanDiffs.RemovalsAreNotSearched | internal/brief/rules.go:291-310 | whichever way the patch is spelled as a diff, a rule about behavior is in the result if and only if it matches once that diff's removals are blanked |
| RuleScanResults.ExtraInResultExactly | internal/brief/rules.go:99-165 | a name that no rule has is in the result of a successful scan if and only if the other checks report it: of an accepted diff with none of its lines blanked, otherwise of the original text of some window, where the rules stayed within the limit |
| RuleScanResults.ScanSucceedsExactly | internal/brief/rules.go:219-310 | a scan succeeds if and only if the reader does and no more findings than the limit were made, different ones in all windows together or all in the one window of a diff |
| RuleScanResults.SampleIsTheBeginning | internal/brief/rules.go:219-310 | the total is the length of the stream and the sample as much of its beginning as may be kept |
| RuleScanResults.RepresentativeKeepsThree | internal/brief/rules.go:312-327 | of the soft findings of a rule the capped list has all or three |
| RuleScanResults.RepresentativeExtends | internal/brief/rules.go:312-327 | the first three are kept: further findings change nothing about the list so far |
| ShellWord.EvaluateStaticShellScalar | internal/brief/scanner.go:1102-1189 | the loop over index and quote state computes the value of the word, or that it has none |
| ShellQuoting.SingleQuotesRoundTrip | internal/brief/scanner.go:1102-1189 | every string, single-quoted with its apostrophes closed, escaped and reopened, evaluates to itself |
| ShellQuoting.DoubleQuotesRoundTrip | internal/brief/scanner.go:1102-1189 | a string evaluates to itself from double quotes if and only if it has no apostrophe and only escaped characters beyond 8192 |
| ShellReading.AgreesWithTheShell | internal/brief/scanner.go:1102-1225 | without four kinds of spot before the word ends, the evaluator has a value of at most 8192 bytes if and only if the shell's rules give the word that value |
| ShellReading.ValueIsTheShellsExactly | internal/brief/scanner.go:1102-1225 | for a word without apostrophes inside double quotes, a value that the evaluator finds is the shell's if and only if none of the other three spots occurs |
| ShellReading.ReferencesExactly | internal/brief/scanner.go:1191-1225 | what is read as a variable reference is exactly a dollar sign and a name, braced or not |
| ShellReading.ApostrophesMayCancel | internal/brief/scanner.go:1102-1189 | a word with apostrophes inside double quotes on which both readings part and end in the same value |
| ShellReading.MisreadsApostrophe | internal/brief/scanner.go:1102-1189 | an apostrophe in double quotes switches state, so that a word evaluates to another value than in the shell |
| ShellReading.MisreadsHash | internal/brief/scanner.go:1102-1189 | a number sign behind an escaped blank is taken for a comment |
| ShellReading.MisreadsContinuedLine | internal/brief/scanner.go:1102-1189 | a continued line becomes a newline in the value |
| ShellReading.MisreadsNewline | internal/brief/scanner.go:1102-1189 | an unquoted newline is read as part of the word, where the shell ends it |
| StaticChecksums.Analysis.Analyze | internal/brief/scanner.go:953-1011 | the loop over statements leaves the values, unresolved names and unknown flag of the specification; which these are is StaticChecksumsComplete.FunctionsAreInert, GivesUpExactly and LastAssignmentDecides |
| StaticChecksums.Analysis.ApplyScalar | internal/brief/scanner.go:1013-1043 | a scalar assignment sets, appends to or forgets exactly its own name |
| StaticChecksumsComplete.FunctionsAreInert | internal/brief/scanner.go:964-985 | a script and the same script without its function declarations leave the same facts |
| StaticChecksumsComplete.GivesUpExactly | internal/brief/scanner.go:953-1011 | every name is unknown if and only if some statement neither assigns only nor declares a function |
| StaticChecksumsComplete.LastAssignmentDecides | internal/brief/scanner.go:953-1069 | with nothing behind it but assignments to other names and function declarations, the last assignment of an array reports it if and only if its items are known words, and for an addition the array before was reported and the sum is no longer than 4096 |
| StaticChecksumsComplete.ScalarIsKnownExactly | internal/brief/scanner.go:1013-1043 | a variable is known after an assignment if and only if that is plain, its word is known and the bounds on length and number hold |
| StaticChecksumsComplete.ChecksumNamesExactly | internal/brief/scanner.go:765-765 | the names looked at are exactly an algorithm and sums, with an architecture or without |
| StaticChecksumsSound.ScriptAgrees | internal/brief/scanner.go:953-1069 | in every execution whose assignments are regular where they are executed: while the script has not ended the store is as the analysis says, and at any time every checksum name written is reported or unresolved; opaque commands may do anything and end the script |
| StaticChecksumsSound.ReportedArraysAreReal | internal/brief/scanner.go:953-1069 | in such an execution a reported array is the one that the script ends up with, wherever it ends, if it comes to the last assignment of the name |
| StaticChecksumsSound.StopMattersExactly | internal/brief/scanner.go:964-985 | when a command only ends the script, a report is right if and only if the statements before report the same array |
| StaticChecksumsSound.UnreportedNamesAreUnset | internal/brief/scanner.go:819-829 | and a checksum name neither reported nor unresolved is never written, wherever the script ends, as the .SRCINFO comparison relies on |
| StaticChecksumsShell.PlainElementIsSound | internal/brief/scanner.go:1013-1069 | an array word without unquoted expansion, glob, brace or tilde and without the evaluator's four spots is, where it is resolved, one field with that value |
| StaticChecksumsShell.PlainScriptsAreReadTruly | internal/brief/scanner.go:953-1069 | a script whose checksum and scalar words are such by their text ends up with every reported array whose last assignment it comes to, and writes no unreported name |
| StaticChecksumsShell.StaticScriptsAreReadTruly | internal/brief/scanner.go:953-1069 | if moreover the analysis knows every assigned value and nothing else runs in the foreground, this holds of every array and every execution, with ordinary names |
| StaticChecksumsShell.ArrayIsTrueExactly | internal/brief/scanner.go:1045-1069 | an array of one-field words without inner apostrophes is reported truly if and only if no word has one of the other three spots |
| StaticChecksumsShell.ReaderFollowsTheShell | internal/brief/scanner.go:1045-1069 | there is a Bash as these results assume it |
| StaticChecksumsStops.ReturnIsNotSeen | internal/brief/scanner.go:964-985 | an array is reported although `return` ends the script before its assignment |
| StaticChecksumsStops.ReportIsSafeExactly | internal/brief/scanner.go:964-985 | with nothing wrong with the words, a reported array is the array of every execution if and only if no opaque command runs in the foreground |
| StaticChecksumsLimits.WellBehavedRunsAreRegular | internal/brief/scanner.go:953-1069 | under a Bash that is well-behaved throughout, every script that assigns plainly runs regularly |
| StaticChecksumsLimits.QuietBashIsWellBehaved | internal/brief/scanner.go:953-1069 | there is such a Bash |
| StaticChecksumsLimits.BackgroundIsNotSeen | internal/brief/scanner.go:964-985 | an assignment in the background is reported although it changes nothing |
| StaticChecksumsLimits.AttributesAreNotSeen | internal/brief/scanner.go:964-985 | an assignment to a readonly name is reported although it fails |
| StaticChecksumsLimits.EffectsOfWordsAreNotSeen | internal/brief/scanner.go:1013-1069 | a word that assigns while it expands makes a reported array wrong |
| StaticChecksumsLimits.EffectsOfIndicesAreNotSeen | internal/brief/scanner.go:1013-1043 | an index that assigns while it is evaluated makes a reported array wrong |
| StaticChecksumsLimits.OpaqueAttributesAreNotSeen | internal/brief/scanner.go:953-1011 | an array is reported although an opaque command made its name readonly before |
| StaticChecksumsLimits.SplittingIsNotSeen | internal/brief/scanner.go:1045-1069 | an unquoted variable with a blank in its value is reported as one element where the shell makes two |
| StaticChecksumsLimits.MisreadWordsAreNotSeen | internal/brief/scanner.go:1045-1069 | a word that the evaluator misreads is reported with the wrong value |
| MTree.DecodeMTreePath | internal/brief/mtree.go:116-137 | the index loop decodes as specified, leaving malformed escapes alone |
| MTree.DecodeInvertsEncode | internal/brief/mtree.go:116-137 | decoding undoes every octal escaping of every byte string that escapes at least the backslash |
| MTree.ParseMTree | internal/brief/mtree.go:40-112 | the loop with its inherited defaults visits exactly the records of the text |
| MTreeRecords.RecordAt | internal/brief/mtree.go:40-57 | the record of a path line stands where its line does among the path lines, with the defaults that the lines before it leave |
| MTreeRecords.LastDirectiveDecides | internal/brief/mtree.go:40-79 | the defaults in force come from the last directive about the mode: none after `/unset`, the value of the last good field after `/set` |
| MTreeRecords.KindExactly | internal/brief/mtree.go:40-57 | which lines are nothing, directives and records, by their bytes |
| MTreeRecords.ModeOfRecordExactly | internal/brief/mtree.go:81-112 | a record has the mode of its last mode field, -1 if that is no octal number, and without one the default in force |
| MTreeRecords.CapabilityExactly | internal/brief/mtree.go:81-112 | a record grants capabilities if and only if its line mentions them anywhere |
| MTreeRecords.OctalRoundTrip | internal/brief/mtree.go:59-112 | every number below 2^63 in octal, with zeros in front or not, and its negation, is read back |
| MTreeRecords.PrivilegedExactly | internal/brief/mtree.go:81-141 | a record with an octal mode counts as privileged if and only if its line mentions capabilities or the fourth digit from the end is two or more |
| MTree.FilterMTreeText | internal/brief/filter.go:199-218 | the line loop keeps exactly the lines the specification keeps |
| MTreeRecords.StaysExactly | internal/brief/filter.go:199-218 | a line is dropped if and only if its first token decodes to a dropped name and it is neither empty nor a comment nor a directive |
| MTreeFilter.LinesOfFilteredText | internal/brief/filter.go:199-218 | the lines of the filtered text are the kept lines of the text |
| MTreeFilter.AlignedLinesFilter | internal/brief/filter.go:199-218 | parsing the kept lines gives the surviving records with the modes they had, inherited or explicit, from any defaults |
| MTreeFilter.FilterIsExactIff | internal/brief/filter.go:186-237 | with directives kept, the filter is exact for every drop set if and only if filter and reader see the same path in every record line |
| MTreeFilter.LibarchiveLinesAreAligned | internal/brief/filter.go:199-218 | lines as libarchive writes them meet that condition |
| MTreeFilter.LibarchiveTextFilters | internal/brief/mtree.go:40-112 | for libarchive's own text the filtered .MTREE has exactly the records whose path is not dropped, each with its mode |
| PackageRewrite.DropSet | internal/brief/filter.go:35-71 | the loops over maps compute the strip set and the archived directories with no surviving file beneath |
| PackageRewrite.SurvivorsKeepTheirDirectories | internal/brief/filter.go:35-71 | no surviving file loses an archived directory above it that was not itself stripped |
| PackageRewrite.FilterArchive | internal/brief/filter.go:87-180 | the rewrite refuses what must not be stripped and otherwise writes, member by member, what the specification says; what that is for a strip list is PackageRewriteExact.RewriteExactly |
| PackageRewriteExact.RewriteExactly | internal/brief/filter.go:35-180 | it refuses if and only if a name to strip is missing or protected, or an .MTREE that stays cannot be read; otherwise exactly the members that are neither stripped nor directories left without a surviving file are written, once and in order, each with its header and content but for .MTREE, and the pruned names are exactly those directories |
| PackageRewriteExact.MTreeExactly | internal/brief/filter.go:186-237 | for libarchive text the written .MTREE has exactly the records whose path is neither stripped nor such a directory |
| PackageRewriteExact.DroppedExactly | internal/brief/filter.go:35-71 | a name is dropped if and only if it is stripped or an archived directory with no surviving file below it |
| PackageRewrite.RewriteKeepsTheOthers | internal/brief/filter.go:120-180 | every other member is written once, in order, with its header and content; only .MTREE is written differently |
| PackageRewrite.OutputsAgree | internal/brief/filter.go:186-237 | if the records named only archive members before, they do so after, and they are exactly the surviving ones |
| XzHeader.XzVarint | internal/brief/archives.go:321-331 | the shift loop computes the sum of seven-bit groups that section 1.2 describes, over at most nine bytes |
| XzHeader.VarintRoundTrip | internal/brief/archives.go:321-331 | every value below 2^63 is read back from its encoding, whatever follows |
| XzHeader.DecodedWasEncoded | internal/brief/archives.go:321-331 | conversely what is read was the shortest encoding of the value unless it ends in a zero byte |
| XzHeader.CheckXzDictionary | internal/brief/archives.go:258-318 | the cursor over flags, sizes and filters gives the verdict of the specification |
| XzHeader.ChecksDictionaries | internal/brief/archives.go:258-318 | a well-formed block header in the prefix passes if and only if every LZMA2 filter declares at most 128 MiB, if and only if its property byte is at most 30 |
| XzAccepted.PassesExactly | internal/brief/archives.go:258-318 | any prefix passes if and only if it has the index indicator, or a whole block header whose sizes and filters can be read and declare no dictionary above the limit |
| XzHeader.OnlyTheFirstHeaderCounts | internal/brief/archives.go:251-277 | the verdict depends on nothing behind the first block header, or behind the index indicator in its place |
| XzHeader.LaterDictionariesAreNotSeen | internal/brief/archives.go:258-277 | a header that declares 4 GiB is refused, but passes behind a small block or behind a stream without blocks |
| ArchiveScan.ArchiveResult.CheckLimits | internal/brief/archives.go:469-490 | counts a member and stops at invalid sizes and exceeded limits |
| ArchiveScan.ArchiveResult.ReadItems | internal/brief/archives.go:333-467 | the loop over tar or zip members updates the result in place as specified |
| ArchiveScan.ArchiveResult.ReadMember | internal/brief/archives.go:492-556 | a nested archive is scanned one level deeper, skipped by policy or reported at the depth limit |
| ArchiveContents.FindingsAreKept | internal/brief/archives.go:333-556 | wherever the scan of a container ends, the findings of every member it got to are in the result: its own, those of its text or of the archive in it, and the gap it leaves |
| ArchiveContents.ScanGoesOn | internal/brief/archives.go:333-490 | a readable member within the limits stops nothing: the next one is counted unless its size is invalid or exceeds a limit |
| ArchiveContents.ResultKeepsMembers | internal/brief/archives.go:128-200 | the result of a container holds what its members told; it is unsupported if they end in a failure or there is none |
| ArchiveScan.ScanArchive | internal/brief/archives.go:128-192 | the scan ends for every nesting, on the depth that is left, with the specified result, starting afresh for compressed streams |
| ArchiveBudgets.CompleteMeansWithin | internal/brief/archives.go:128-192 | a result that claims completeness has entries, bytes and archives within their limits and was supported throughout |
| ArchiveContents.ItemsExactly | internal/brief/archives.go:333-556 | with exact counters, members are all read without a gap if and only if each can be read whole, what they add fits the limits and the findings pass the checks; the result is then the sum of what they add |
| ArchiveContents.CompleteExactly | internal/brief/archives.go:128-200 | with exact counters, a complete result is the sum over the members, archives in them included, or that of a compressed stream read as such; and a container whose members can all be read, within the limits, has it |
| ArchiveBudgets.EntriesAreBounded | internal/brief/archives.go:469-556 | whatever is nested in what, no scan counts more entries than the levels left times one more than the limit |
| ArchiveBudgets.GapsAreReported | internal/brief/archives.go:128-200 | an incomplete result always holds a coverage finding that says why |
| ArchiveBudgets.CountedAgreesExactly | internal/brief/archives.go:469-490 | counting one member, the 64-bit counter agrees with an exact one if and only if the sum stays below 2^63 |
| ArchiveBudgets.ItemsAgreeExactly | internal/brief/archives.go:333-490 | a member list whose own archives are scanned alike has the result of exact counters if and only if no exact sum reaches 2^63 |
| ArchiveBudgets.ScanAgreesExactly | internal/brief/archives.go:128-192 | the same for a whole scan, whose sums do not matter only when both counts give up the members for a compressed stream |
| ArchiveBudgets.CountersAgreeExactly | internal/brief/archives.go:128-192 | 64-bit counters give the scans of exact counters at every level of nesting if and only if the sums are harmless at every level |
| ArchiveBudgets.BytesAreExact | internal/brief/archives.go:469-490 | in particular they do, at every level, when everything declared adds up to less than 2^63 bytes |
| ArchiveBudgets.WrappedSizeIsNotSeen | internal/brief/archives.go:469-490 | two unread members of 1 and 2^63 - 1 declared bytes wrap the sum, and the scan is complete |
| SelectionBudget.Inventory.Finalize | internal/brief/scanner.go:1227-1281 | eligible files and bytes are selected plus omitted; selected files and bytes are those with text and within the limit; a record is cleared if and only if it does not fit beside what earlier ones keep; complete if and only if nothing mandatory was omitted and no coverage finding remains |
| SelectionBudget.Inventory.SpendBudget | internal/brief/scanner.go:1249-1266 | the greedy pass, with a coverage finding for each omitted mandatory record |
| SelectionBudget.ListedIsAll | internal/brief/scanner.go:1231-1242 | listing every record with text once adds up to all text |
| SelectionExact.OrderExactly | internal/brief/scanner.go:1243-1361 | records are taken in the order of the list of reasons, other reasons last, and by encoded path among equals |
| SelectionExact.SpentExactly | internal/brief/scanner.go:1251-1263 | a record keeps its text if and only if that fits the limit together with all text kept before it |
| SelectionExact.NothingMoreFits | internal/brief/scanner.go:1251-1263 | no omitted record would fit beside the text selected in the end |
| SelectionExact.ReportedExactly | internal/brief/scanner.go:1251-1268 | exactly the omitted control text, archive members and records with binary metadata are reported |
| ReviewBatches.CutFiles | internal/audit/review.go:634-647 | the pieces of all files in order, unless the text exceeds the aggregate limit |
| ReviewBatches.SpansFollow | internal/audit/review.go:643-646 | pieces follow each other without gap or overlap, to the end of the file |
| ReviewBatches.SpansTile | internal/audit/review.go:643-646 | put together, the pieces are the bytes of the file |
| ReviewPieces.PiecesExactly | internal/audit/review.go:643-717 | piece i of a file is its i-th stretch of the chunk size, with its offset and the lines it covers, counted from one |
| ReviewPieces.ChunkSizeIsLargest | internal/audit/review.go:595-620 | the chunk size is the largest that is within half a batch or 1024 bytes, and a sixth of the room in the context; never below one |
| ReviewPieces.FilesStandInOrder | internal/audit/review.go:634-647 | the pieces of a file stand together behind those of the files before it |
| ReviewPieces.TextBytesExactly | internal/audit/review.go:634-642 | the aggregate limit is compared with the length of all texts together |
| ReviewBatches.Pack | internal/audit/review.go:651-694 | batches hold all pieces in order; a batch of two or more is within the byte limit; each was closed only because the next piece was too much |
| ReviewBatches.MakeBatches | internal/audit/review.go:593-705 | the numbered batches hold every piece of the selected files once and in order; a failure names its reason |
| ReviewPieces.FewestBatches | internal/audit/review.go:675-694 | if what fits the context still fits with pieces left off at its ends, no division of the pieces in order into batches within the limits has fewer batches |
| ReviewBatches.ValidateFiles | internal/audit/review.go:205-219 | accepts exactly the files with known path and consistent line range |
| ReviewBatches.PieceIsValid | internal/audit/review.go:707-717 | every piece has the line range that validation computes from its content |
| ReviewBatches.RangesChain | internal/audit/review.go:707-717 | the next piece starts on the line this one ends on, or the next one after a newline |
| ReviewBatches.AllPiecesAreValid | internal/audit/review.go:205-219 | every piece of every batch passes validation |
| ReviewBatches.ChangedComesFirst | internal/audit/review.go:621-633 | no piece of a changed file comes after a piece of an unchanged one |
| Utf8.ToValidExactly | internal/safe/safe.go:163-171 | what is handed on is valid UTF-8, and it is the given text if and only if that was valid |
| Utf8Scalars.ValidExactly | internal/safe/safe.go:163-171 | text is valid if and only if it is the encoding of Unicode scalar values |
| Utf8Scalars.RunIsReplaced | internal/safe/safe.go:163-171 | a run of bytes that begin no character becomes one replacement character, however long |
| Utf8.SliceIsValidExactly | internal/audit/review.go:707-717 | a part of valid text is valid if and only if neither end falls inside a character |
| ReviewText.PieceSurvivesExactly | internal/audit/review.go:707-717 | a piece shows the bytes of its range if and only if neither end falls inside a character |
| ReviewText.TextSurvivesExactly | internal/audit/review.go:639-646 | the pieces of a file put together show its text if and only if that is valid and no cut falls inside a character |
| ReviewText.CutCharacterIsLost | internal/audit/review.go:639-646 | a chunk filled with ASCII up to its last byte cuts a two-byte character, and two replacement characters are shown in its place |
| VerdictCheck.Validate | internal/audit/models.go:50-83 | the loops accept exactly the valid verdicts: enums, limits, unique finding IDs |
| VerdictCheck.ValidExactly | internal/audit/models.go:50-83 | which verdicts are valid, with every bound and every word that is allowed |
| VerdictCheck.DiagnoseVerdictShape | internal/audit/llm_diagnostic.go:164-264 | reports nothing if and only if validation succeeds |
| VerdictCheck.DiagnoseVerdictBindings | internal/audit/llm_diagnostic.go:266-306 | reports nothing if and only if each comment quotes its target, each target has a comment and each finding a known file |
| VerdictCheck.DiagnoseVerdict | internal/audit/llm_diagnostic.go:150-162 | passes if and only if both hold |
| VerdictCheck.AcceptVerdict | internal/audit/review.go:442-473 | accepts exactly known files and complete, known guidance, and keeps exactly the comments that quote their target |
| VerdictCheck.PassingVerdictIsAcceptedWhole | internal/audit/review.go:442-473 | a verdict that passes the diagnosis is accepted and loses nothing to the filter |
| VerdictCheck.KeptIsBound | internal/audit/review.go:464-472 | what the filter keeps are exactly the comments that name a target and quote its anchor |
| VerdictCheck.BindSchema | internal/audit/ollama.go:449-467 | the bound schema lists exactly the distinct target IDs and asks for that many items |
| VerdictCheck.SchemaForcesCoverage | internal/audit/ollama.go:449-467 | a valid verdict that obeys the bound schema comments on every target |
| DecisionPolicy.AssessDeterministicAt | internal/audit/policy.go:77-96 | allows if and only if coverage is complete, nothing is a hard block and each finding at the threshold was carried; open to approval if and only if the threshold is known, it does not allow, nothing is structural and there is a manifest hash; what reaches a threshold is DecisionOutcomes.SeverityOrder |
| DecisionOutcomes.SeverityOrder | internal/audit/config.go:454-457 | a severity reaches a threshold if and only if both are in the list info, low, medium, high, critical and it does not come before it; an unknown threshold is never reached |
| DecisionOutcomes.ConfidenceOrder | internal/audit/policy.go:839-842 | the same for low, medium, high confidence |
| DecisionOutcomes.DefaultThreshold | internal/audit/policy.go:69-96 | at "high" a high or critical finding that was not decided before blocks, and a complete inventory with milder findings only is allowed |
| DecisionOutcomes.StructuralExactly | internal/audit/policy.go:723-749 | a scan is closed to approval if and only if it is incomplete or some finding is a hard block, an escape, a TOCTOU or of one of five rules |
| DecisionPolicy.ManifestEntryHashes | internal/audit/policy.go:304-318 | maps each path of a valid manifest to the hash of its entry, and fails otherwise |
| DecisionPolicy.CarriedDecision | internal/audit/policy.go:260-302 | the carried findings are exactly those the user settled in a sound, overridden pre report on the same entry, each once and bound |
| DecisionOutcomes.CarriedExactly | internal/audit/policy.go:260-302 | a finding is carried if and only if the live pre report is an override without anything that speaks against it, both manifests are in order, and the finding is deterministic, at the threshold, no hard block and not about coverage, and was put to the user over the same entry hash |
| DecisionPolicy.MergeModelFindings | internal/audit/policy.go:434-455 | the merged findings are what the verdicts say beyond the deterministic ones, each content once; blocks if and only if some verdict objects |
| DecisionPolicy.Evaluate | internal/audit/policy.go:354-521 | builds the report of the specification, and fails if and only if a spent token does not fit its report |
| DecisionOutcomes.AllowedExactly | internal/audit/policy.go:354-485 | a report allows if and only if a token was spent for an approvable scan, or the rules pass and every verdict of a provider that was asked supports it |
| DecisionOutcomes.ApprovableExactly | internal/audit/policy.go:486-505 | it is open to approval if and only if it blocks, is complete and without a structural finding, has a content hash and no verdict of injection, and the archive probe works |
| DecisionOutcomes.NoErrorExactly | internal/audit/policy.go:381-433 | its error text is empty if and only if that of the approved report is, or the service is sound and the provider, if it was asked, answered |
| DecisionOutcomes.FailsExactly | internal/audit/policy.go:376-388 | evaluation fails if and only if a token was spent whose report is of another package, phase, content or policy, or was not open to approval |
| DecisionOutcomes.ShownExactly | internal/audit/policy.go:434-500 | the report shows every deterministic finding as often as it was found, and besides exactly what the verdicts say beyond them, each content once |
| ReportCoherence.Validate | internal/audit/reports.go:125-316 | the loops over local maps accept exactly the coherent reports |
| DecisionOutcomes.EditsAreNoticed | internal/audit/reports.go:300-316 | a stored report with other conclusions is accepted if and only if these follow from its evidence |
| DecisionOutcomes.OtherEvidenceIsNoticed | internal/audit/reports.go:156-292 | it is refused with a manifest of another hash, unbound guidance, or provenance that does not fit its mode |
| DecisionOutcomes.BindingsAreChecked | internal/audit/reports.go:256-271 | each carried binding of an accepted report names, alone, one deterministic finding of its path and the hash of that manifest entry |
| ReportCoherence.AcceptedExactly | internal/audit/policy.go:354-521 | the store accepts what evaluation built if and only if the inventory commits to its manifest, the mode has room for the report, and no model finding makes a report that is open to approval structural |
| ReportCoherence.CarriedDecisionFits | internal/audit/reports.go:256-271 | a carried decision from a stored report meets what validation asks of it |
| ReportCoherence.ModelEscapeIsRefused | internal/audit/reports.go:302-304 | an answer with an archive_escape finding leads to a report that the store refuses |
| ReportCoherence.DeterministicModeRefuses | internal/audit/reports.go:176-179 | in deterministic-only mode a missing archive probe or a forced review leads to a report that the store refuses |
| ReportCoherence.AllowedMeansDecided | internal/audit/policy.go:463-485 | an allowed report was overridden by an approval of this content and policy, or is complete with every finding at the threshold carried |
| ReportCoherence.ModelOnlyTightens | internal/audit/policy.go:457-505 | the provider can only take an allow away; without its verdicts decision and eligibility are those of deterministic-only mode |
| ReportCoherence.CarryOverIsExact | internal/audit/policy.go:260-333 | without an override a post scan is allowed only if every finding at the threshold was put to the user in the live pre report over the same entry and nothing is a hard block; in deterministic-only mode also if |
| DecisionProtocol.StepKeepsInv | internal/audit/policy.go:600-685 | every step of every process keeps the protocol invariant and what was recorded |
| DecisionProtocol.StartsAreAuthorized | internal/audit/policy.go:612-685 | in every run a phase starts only under a report of its own transaction whose marker was the last one when it was read, allows under the current policy and binds the tree; when the tree is bound the last marker allows if and only if the last one written in between, if any, does |
| DecisionProtocol.BlockRevokes | internal/audit/policy.go:600-685 | after a blocking scan wrote its marker no phase starts out from a marker of that slot until another one is written |
| DecisionProtocol.LoadIsARun | internal/audit/policy.go:652-685 | undisturbed, reading the marker, its report and the liveness of its transaction one after the other succeeds exactly when a live report can be loaded, and loads it |
| DecisionOutcomes.LiveExactly | internal/audit/policy.go:652-685 | which marker leads to which report: an allowing one of this root, phase, policy and living transaction that agrees with the report it names |
| DecisionOutcomes.WrittenMarkerLeadsBack | internal/audit/policy.go:600-685 | the marker written for a stored report leads back to it if and only if the report allows |
| DecisionRuns.StartIsARun | internal/audit/policy.go:612-685 | undisturbed, a phase starts if and only if a live report can be loaded and its manifest binds the tree, and the start is recorded |
| DecisionProtocol.ApprovalsAreOneTime | internal/audit/approvals.go:37-113 | overrides never exceed spent tokens and spent tokens never exceed created ones, per package, phase, content and policy, each created for an eligible report |
| DecisionRuns.OverriddenReportsArePaid | internal/audit/approvals.go:37-113 | in every run the overridden reports ever saved for a package, phase, content and policy are at most as many as the tokens spent for it |
| DecisionRuns.EvaluatedSavesPass | internal/audit/policy.go:354-521 | a report that evaluation built, with a spent token only if it obtained one, is never refused for want of a grant |
| DecisionRuns.StartsAreDecided | internal/audit/policy.go:354-521 | in runs where evaluation builds every report, each started phase rests on one that the rules alone allowed, or on a spent approval of a blocked report of the same package, phase, content and policy |
| DecisionProtocol.LateBlockIsNotSeen | internal/audit/policy.go:612-648 | a run in which a phase starts although the last marker blocks |
| Approvals.ApprovalStore.Create | internal/audit/approvals.go:37-68 | creates the token of an eligible report unless an unused one exists |
| Approvals.ApprovalStore.Consume | internal/audit/approvals.go:69-111 | moves the first matching token to the used ones, and nothing else |
| Approvals.FirstMatchExactly | internal/audit/approvals.go:69-111 | the token taken is the first listed one that grants what is wanted, and there is none only if no listed one does |
| Approvals.CreateIsARun | internal/audit/approvals.go:37-68 | undisturbed, creation is a run of the protocol |
| Approvals.ConsumeIsARun | internal/audit/approvals.go:69-111 | undisturbed, the protocol's steps of a consumer spend exactly the token that Consume takes |
| MonitorHandoff.StepKeepsInv | internal/audit/build.go:1423-1476 | every step of monitor, forwarder, caller and parent keeps the error in exactly one place on its way |
| MonitorHandoff.OutcomeIsExact | internal/audit/build.go:1423-1476 | in every interleaving the outcome is the monitor's failure, else the freeze's, else the cancellation; success means there was none |
| MonitorHandoff.CauseIsTheFirst | internal/audit/build.go:1423-1476 | a recorded cancellation cause stays; it is the parent's or the monitor failure that the forwarder had in hand |
| MonitorHandoff.FailureReachesTheFreeze | internal/audit/build.go:1423-1476 | a failure that was received cancels the freeze before the forwarder is gone; one that was not is still in the channel for the caller |
| MonitorHandoff.NothingFailsLate | internal/audit/resource.go:186-200 | once the caller returned, nothing but the parent's cancellation can happen |
| MonitorHandoff.NeverStuck | internal/audit/build.go:1446-1452 | until the caller returns some goroutine can go on |
| MonitorHandoff.RunsAreShort | internal/audit/build.go:1423-1476 | every run ends within thirteen steps |
| Transcript.ShiftLeft | internal/audit/resource.go:462-465 | the overlapping copy to the left in place keeps the tail |
| Transcript.OutputTranscript.Observe | internal/audit/resource.go:443-468 | after any writes the buffer holds the end of the output, at least the limit and less than twice as much, and the flag is set if and only if the limit was exceeded or one write filled it |
| Transcript.OutputTranscript.Bytes | internal/audit/resource.go:473-485 | returns exactly the last bytes up to the limit; an unset flag means nothing is missing |
| Transcript.HeldNext | internal/audit/resource.go:443-468 | each branch of a write leaves the window of the longer output |
| Transcript.UnlimitedDropsInSilence | internal/audit/resource.go:436-454 | without a limit everything is dropped and the flag stays unset |

## Left out

- RuleScanContext.ScanAgreesWithStream: asks that no window is overfull, because the code stops examining rules there; the exact condition is RuleScanCoverage.MissedExactly.
- RuleScanCoverage.MissedExactly: of the program's sixteen rules, plain-http-source and build-phase-download may find their first match only when asked for more of them, since they drop matches after the search; for these InResultExactly says when they are in the result.
- StaticChecksumsSound.ScriptAgrees: asks of the execution that each assignment, where it is executed, is in the foreground, sets no attributes, changes only its own plain name and takes its values from words that mean there what the evaluator says; StaticChecksumsLimits has a script for each of these. The condition is sufficient, not exact: a wrong value may be overwritten later.
- StaticChecksumsShell.PlainScriptsAreReadTruly: still asks of the execution that assignments change only their own plain name, because words the analysis does not read may have effects; StaticScriptsAreReadTruly does not.
- StaticChecksumsShell.ArrayIsTrueExactly: asks that each word has a value in the shell, because what a command substitution gives is open.
- MTreeFilter.FilterIsExactIff: asks that directives are kept, because a drop set that removes a `/set` line changes what later lines inherit.
- ArchiveContents.CompleteExactly: is about exact counters; ArchiveBudgets.CountersAgreeExactly says when 64-bit ones give the same scans. A compressed stream is read as such when its members end in a failure, whose exact condition is in ItemsExactly.
- ReviewPieces.FewestBatches: asks that what fits the context still fits with pieces left off, which the program does not state.
- ArchiveBudgets.CountersAgreeExactly: asks for a byte limit below 2^63 - 1, because the program adds one to it (internal/brief/archives.go:682).
- XzHeader.OnlyTheFirstHeaderCounts: what the decoder does with later headers is not part of this model.
- DecisionRuns.StartsAreDecided: which spent token a report stands on is told apart by package, phase, content and policy, as the program does, and not by token.
- ReviewBatches.MakeBatches: takes the files already sorted; the repeated check of each finished batch against the provider's context is left out, because every batch fits by construction.
- ReportCoherence.Validate: covers the conditions that relate fields to each other; formats, enums and single limits of a report are one branch each.
- DecisionPolicy.Evaluate: the report summary, exit status, time stamps and provenance fields that are only copied are left out; the token that was spent and the provider's answer are inputs.
- SelectionBudget.Inventory.Finalize: the final sorting of files, findings and exclusions, source binding and the manifest hash after the budget are left out.
- Transcript.OutputTranscript.Bytes: returns a copy, where the program returns a slice of the buffer; the lock and the aliasing are not modelled.
- PackageRewrite.FilterArchive: the order of the pruned names, file modes of the target and the temporary file are left out.
- DecisionProtocol.StartsAreAuthorized: binding a tree is one step, while the program reads file by file (marker, report and liveness are three steps); a report ID never names two scans; rewriting a report in place keeps its package, phase and policy, which the code leaves to its callers.
- MonitorHandoff.NeverStuck: takes for granted that the freeze itself returns.
- ArchiveScan.ScanArchive: what decoders and member readers make of the bytes is given; entry and archive counters are unbounded, byte counters are 64 bits wide.
- Unicode, plain-HTTP and build-phase checks of the rule scan are generic finders with their own limit.
- White space is the six ASCII characters; path cleaning and the archive member name checks are part of what is given.
- Deciding by name whether a file is a patch or a shell script is a flag.
- Hook installation and removal in `init.lua`: string edits that one would read from the code.
- `invocationNetworkEnabled`, enum and limit checks of the configuration: settled by one branch.
- Sandbox, inotify, provider transports, attestation, terminal output and benchmarks: foreign calls and presentation.
