/** What the rule scan finds in patches: internal/brief/rules.go 291-310 behind
    internal/brief/diff.go.

    A patch that was read whole and is accepted as a diff is scanned once more, in
    one piece and without its removed lines; any other is scanned like a file that
    is no patch. */
module RuleScanDiffs {
  import opened Text
  import opened RuleScan
  import opened RuleScanCoverage
  import UnifiedDiff
  import UnifiedDiffGrammar

  predicate ReadAsDiff(sampleLimit: nat, stream: string) {
    |stream| <= sampleLimit && UnifiedDiff.BehaviorText(true, stream).1
  }

  /** A patch that is not read as a diff has the result of any other file. */
  lemma OtherPatchesScanAlike(engine: Engine, maskComments: bool, sampleLimit: nat, chunks: seq<string>,
                              readFails: bool)
    requires WellBehaved(engine) && !ReadAsDiff(sampleLimit, Concat(chunks))
    ensures ScanSpec(engine, true, maskComments, sampleLimit, chunks, readFails) ==
            ScanSpec(engine, false, maskComments, sampleLimit, chunks, readFails)
  {
    hide UnifiedDiff.BehaviorText, FoundAfter, Prepared, Representative;
  }

  /** The text of a diff in one window, its removed lines blanked. */
  function DiffWindow(stream: string): Window {
    Window(stream, UnifiedDiff.BehaviorText(true, stream).0, 0)
  }

  /** What the rule looks at in a diff: all of it, or all but its removed lines. */
  function DiffText(rule: Rule, stream: string): string {
    if rule.onOriginal then stream else UnifiedDiff.BehaviorText(true, stream).0
  }

  /** In a patch read as a diff a rule is found exactly when it matches in the text
      it looks at, whatever it looks at there and however long the match: the whole
      diff for rules on the original, otherwise the diff without its removed lines.
      No window can be overfull, for the scan then fails; comments and the split
      into reads do not matter. */
  lemma DiffsAreSearchedWhole(engine: Engine, r: nat, maskComments: bool, sampleLimit: nat, chunks: seq<string>)
    requires WellBehaved(engine) && DistinctNames(engine) && r < |engine.rules| && Steady(engine.rules[r])
    requires ReadAsDiff(sampleLimit, Concat(chunks))
    requires ScanSpec(engine, true, maskComments, sampleLimit, chunks, false).Scanned?
    ensures Names(ScanSpec(engine, true, maskComments, sampleLimit, chunks, false).findings, engine.rules[r].id) <==>
            Finds(engine.rules[r], DiffText(engine.rules[r], Concat(chunks)))
  {
    hide UnifiedDiff.BehaviorText, FoundAfter, Representative, PreparedFrom, FoundBefore, Steady, Finds, Reported;
    var w := DiffWindow(Concat(chunks));
    PreparedFromFound(engine, 0, w);
    FoundNothing(engine, w);
    ExaminedWhenNotOverfull(engine, r, w);
    NamedInWindow(engine, r, w);
    ReportedMeansFinds(engine, r, w);
  }

  /** Any patch: read as a diff it is searched whole; otherwise a rule is found
      exactly when it gets its turn and matches in some window. */
  lemma PatchesAreSearchedExactly(engine: Engine, r: nat, maskComments: bool, sampleLimit: nat, chunks: seq<string>)
    requires WellBehaved(engine) && DistinctNames(engine) && r < |engine.rules| && Steady(engine.rules[r])
    requires ScanSpec(engine, true, maskComments, sampleLimit, chunks, false).Scanned?
    ensures Names(ScanSpec(engine, true, maskComments, sampleLimit, chunks, false).findings, engine.rules[r].id) <==>
            if ReadAsDiff(sampleLimit, Concat(chunks)) then
              Finds(engine.rules[r], DiffText(engine.rules[r], Concat(chunks)))
            else exists k :: 0 <= k < |chunks| && SeenBy(engine, r, maskComments, chunks, k)
  {
    hide ScanSpec, ReadAsDiff, DiffText, Steady, Finds, SeenBy;
    if ReadAsDiff(sampleLimit, Concat(chunks)) {
      DiffsAreSearchedWhole(engine, r, maskComments, sampleLimit, chunks);
    } else {
      OtherPatchesScanAlike(engine, maskComments, sampleLimit, chunks, false);
      InResultExactly(engine, r, maskComments, sampleLimit, chunks);
    }
  }

  /** Whichever way the patch is spelled as a diff: a rule about behavior is found
      exactly when it matches once that diff's removals are blanked. */
  lemma RemovalsAreNotSearched(engine: Engine, r: nat, maskComments: bool, sampleLimit: nat, chunks: seq<string>,
                               d: UnifiedDiffGrammar.Diff)
    requires WellBehaved(engine) && DistinctNames(engine) && r < |engine.rules| && Steady(engine.rules[r])
    requires !engine.rules[r].onOriginal && |Concat(chunks)| <= sampleLimit
    requires UnifiedDiffGrammar.Spells(Concat(chunks), d)
    requires ScanSpec(engine, true, maskComments, sampleLimit, chunks, false).Scanned?
    ensures var text := Concat(chunks);
            var removals := UnifiedDiffGrammar.Removals(UnifiedDiffGrammar.PrintDiff(d));
            Names(ScanSpec(engine, true, maskComments, sampleLimit, chunks, false).findings, engine.rules[r].id) <==>
            Finds(engine.rules[r], UnifiedDiff.MaskLines(RawLines(text), removals))
  {
    hide UnifiedDiff.BehaviorText, ScanSpec, Steady, Finds, UnifiedDiffGrammar.Spells, RawLines;
    UnifiedDiffGrammar.MasksExactlyTheRemovals(Concat(chunks), d);
    DiffsAreSearchedWhole(engine, r, maskComments, sampleLimit, chunks);
  }
}
