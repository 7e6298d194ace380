/** What the chunked scan finds, compared with a look at the whole stream, for rules
    whose matches depend on nothing but the stretch that matches and the byte on
    either side of it, as word boundaries do. */
module RuleScanContext {
  import opened Text
  import opened ShellComments
  import opened RuleScan
  import opened RuleScanCoverage

  /** Whether a stretch matches between two bytes, or at an end of the text. */
  type Pattern = (Option<char>, string, Option<char>) -> bool

  function ByteAt(text: string, i: int): Option<char> {
    if 0 <= i < |text| then Some(text[i]) else None
  }

  predicate Hit(hits: Pattern, text: string, i: nat, j: nat) {
    i < j <= |text| && hits(ByteAt(text, i - 1), text[i..j], ByteAt(text, j))
  }

  /** Some stretch of `text` matches. */
  ghost predicate Occurs(hits: Pattern, text: string) {
    exists i: nat, j: nat :: Hit(hits, text, i, j)
  }

  /** The rule matches where `hits` says so; of what stands around a stretch it sees
      one byte on either side. */
  ghost predicate Neighborly(rule: Rule, hits: Pattern) {
    && Ordered(rule)
    && (forall text: string, n: nat, i: nat :: i < |rule.find(text, n)| ==>
          Hit(hits, text, rule.find(text, n)[i].start, rule.find(text, n)[i].end))
    && (forall text: string, n: nat :: n > 0 && Occurs(hits, text) ==> rule.find(text, n) != [])
  }

  /** It does not even see those. */
  ghost predicate Contextless(hits: Pattern) {
    forall p, s, q :: hits(p, s, q) == hits(None, s, None)
  }

  lemma NeighborlyFinds(rule: Rule, hits: Pattern, text: string)
    requires Neighborly(rule, hits)
    ensures Finds(rule, text) <==> Occurs(hits, text)
  {
    hide Hit;
    if Finds(rule, text) {
      assert Hit(hits, text, rule.find(text, 1)[0].start, rule.find(text, 1)[0].end);
    }
  }

  lemma NeighborlyIsSteady(rule: Rule, hits: Pattern)
    requires Neighborly(rule, hits)
    ensures Steady(rule)
  {
    hide Hit;
    forall text: string, n: nat | n > 0 ensures rule.find(text, n) != [] <==> Finds(rule, text) {
      if rule.find(text, n) != [] {
        assert Hit(hits, text, rule.find(text, n)[0].start, rule.find(text, n)[0].end);
      }
      NeighborlyFinds(rule, hits, text);
    }
  }

  // ---------------------------------------------------------------- matches in a part of the text

  /** In the part `start..end` of `text`, `i..j` matches for the part, but not for the
      text: then it touches an end of the part. */
  predicate CutHit(hits: Pattern, text: string, start: nat, end: nat, i: nat, j: nat)
    requires start <= end <= |text|
  {
    start <= i < j <= end && Hit(hits, text[start..end], i - start, j - start) && !Hit(hits, text, i, j)
  }

  /** Matches for the part and for the text. */
  predicate WholeHit(hits: Pattern, text: string, start: nat, end: nat, i: nat, j: nat)
    requires start <= end <= |text|
  {
    start <= i < j <= end && Hit(hits, text[start..end], i - start, j - start) && Hit(hits, text, i, j)
  }

  lemma PartOccurs(hits: Pattern, text: string, start: nat, end: nat)
    requires start <= end <= |text|
    ensures Occurs(hits, text[start..end]) <==>
            || (exists i: nat, j: nat :: WholeHit(hits, text, start, end, i, j))
            || (exists i: nat, j: nat :: CutHit(hits, text, start, end, i, j))
  {
    hide Hit;
    if Occurs(hits, text[start..end]) {
      var i: nat, j: nat :| Hit(hits, text[start..end], i, j);
      assert i < j <= end - start by { HitLies(hits, text[start..end], i, j); }
      assert start + i - start == i && start + j - start == j;
      assert || WholeHit(hits, text, start, end, start + i, start + j)
             || CutHit(hits, text, start, end, start + i, start + j);
    }
  }

  lemma HitLies(hits: Pattern, text: string, i: nat, j: nat)
    requires Hit(hits, text, i, j)
    ensures i < j <= |text|
  {
  }

  /** Only at an end of the part can the two differ: at its first byte, when bytes
      come before it, or at its last, when bytes follow. */
  lemma CutsOnlyAtEnds(hits: Pattern, text: string, start: nat, end: nat, i: nat, j: nat)
    requires start <= i < j <= end <= |text|
    ensures (i > start || start == 0) && (j < end || end == |text|) ==>
              (Hit(hits, text[start..end], i - start, j - start) <==> Hit(hits, text, i, j))
    ensures Contextless(hits) ==> (Hit(hits, text[start..end], i - start, j - start) <==> Hit(hits, text, i, j))
  {
    var part := text[start..end];
    SliceOfSlice(text, start, end, i - start, j - start);
    assert i > start ==> ByteAt(part, i - start - 1) == ByteAt(text, i - 1);
    assert j < end ==> ByteAt(part, j - start) == ByteAt(text, j);
    if Contextless(hits) {
      assert hits(ByteAt(text, i - 1), text[i..j], ByteAt(text, j)) == hits(None, text[i..j], None);
      assert hits(ByteAt(part, i - start - 1), text[i..j], ByteAt(part, j - start)) == hits(None, text[i..j], None);
    }
  }

  // ---------------------------------------------------------------- windows

  /** Where window `k` ends in the stream. */
  function WindowEnd(chunks: seq<string>, k: nat): nat
    requires k < |chunks|
  {
    |StreamTo(chunks, k + 1)|
  }

  lemma WindowLies(rule: Rule, maskComments: bool, chunks: seq<string>, k: nat)
    requires k < |chunks|
    ensures WindowStart(chunks, k) <= WindowEnd(chunks, k) <= |RuleStream(rule, maskComments, chunks)|
    ensures RuleWindow(rule, maskComments, chunks, k) ==
            RuleStream(rule, maskComments, chunks)[WindowStart(chunks, k)..WindowEnd(chunks, k)]
  {
    hide RuleStream, WindowStart, RuleText;
    WindowIsSlice(rule, maskComments, chunks, k);
  }

  /** Window `k` was read and shows the stretch as the stream does. */
  predicate ShownIn(rule: Rule, hits: Pattern, maskComments: bool, chunks: seq<string>, k: nat, i: nat, j: nat)
    requires k < |chunks|
  {
    WindowLies(rule, maskComments, chunks, k);
    chunks[k] != "" &&
    WholeHit(hits, RuleStream(rule, maskComments, chunks), WindowStart(chunks, k), WindowEnd(chunks, k), i, j)
  }

  /** Window `k` was read and makes a match of a stretch that is none in the stream. */
  predicate MadeIn(rule: Rule, hits: Pattern, maskComments: bool, chunks: seq<string>, k: nat, i: nat, j: nat)
    requires k < |chunks|
  {
    WindowLies(rule, maskComments, chunks, k);
    chunks[k] != "" &&
    CutHit(hits, RuleStream(rule, maskComments, chunks), WindowStart(chunks, k), WindowEnd(chunks, k), i, j)
  }

  ghost predicate Shows(rule: Rule, hits: Pattern, maskComments: bool, chunks: seq<string>, k: nat)
    requires k < |chunks|
  {
    exists i: nat, j: nat :: ShownIn(rule, hits, maskComments, chunks, k, i, j)
  }

  ghost predicate Makes(rule: Rule, hits: Pattern, maskComments: bool, chunks: seq<string>, k: nat)
    requires k < |chunks|
  {
    exists i: nat, j: nat :: MadeIn(rule, hits, maskComments, chunks, k, i, j)
  }

  lemma WindowFinds(rule: Rule, hits: Pattern, maskComments: bool, chunks: seq<string>, k: nat)
    requires k < |chunks| && chunks[k] != "" && Neighborly(rule, hits)
    ensures Finds(rule, RuleWindow(rule, maskComments, chunks, k)) <==>
            Shows(rule, hits, maskComments, chunks, k) || Makes(rule, hits, maskComments, chunks, k)
  {
    hide Finds, Occurs, Neighborly, RuleWindow, RuleStream, WindowStart, WindowEnd, WholeHit, CutHit;
    WindowLies(rule, maskComments, chunks, k);
    var stream, start, end := RuleStream(rule, maskComments, chunks), WindowStart(chunks, k), WindowEnd(chunks, k);
    NeighborlyFinds(rule, hits, RuleWindow(rule, maskComments, chunks, k));
    PartOccurs(hits, stream, start, end);
    if i: nat, j: nat :| WholeHit(hits, stream, start, end, i, j) {
      assert ShownIn(rule, hits, maskComments, chunks, k, i, j);
    }
    if i: nat, j: nat :| CutHit(hits, stream, start, end, i, j) {
      assert MadeIn(rule, hits, maskComments, chunks, k, i, j);
    }
  }

  /** While no window is overfull, a rule is in the result exactly when some window
      shows one of its matches or makes one. */
  lemma FoundExactly(engine: Engine, r: nat, hits: Pattern, maskComments: bool, sampleLimit: nat, chunks: seq<string>)
    requires WellBehaved(engine) && DistinctNames(engine) && r < |engine.rules|
    requires Neighborly(engine.rules[r], hits) && NoWindowOverfull(engine, maskComments, chunks)
    requires ScanSpec(engine, false, maskComments, sampleLimit, chunks, false).Scanned?
    ensures Names(ScanSpec(engine, false, maskComments, sampleLimit, chunks, false).findings, engine.rules[r].id) <==>
            exists k :: 0 <= k < |chunks| && (Shows(engine.rules[r], hits, maskComments, chunks, k) ||
                                              Makes(engine.rules[r], hits, maskComments, chunks, k))
  {
    hide ScanSpec, Examined, Finds, WindowOf, Steady, RuleWindow, Neighborly, Shows, Makes;
    var rule := engine.rules[r];
    NeighborlyIsSteady(rule, hits);
    MissedExactly(engine, r, maskComments, sampleLimit, chunks);
    forall k | 0 <= k < |chunks|
      ensures chunks[k] != "" ==> Examined(engine, r, WindowOf(maskComments, chunks, k))
      ensures chunks[k] != "" && Finds(rule, RuleWindow(rule, maskComments, chunks, k)) <==>
              Shows(rule, hits, maskComments, chunks, k) || Makes(rule, hits, maskComments, chunks, k)
    {
      if chunks[k] != "" {
        ExaminedWhenNotOverfull(engine, r, WindowOf(maskComments, chunks, k));
        WindowFinds(rule, hits, maskComments, chunks, k);
      } else {
        NothingRead(rule, hits, maskComments, chunks, k);
      }
    }
  }

  lemma NothingRead(rule: Rule, hits: Pattern, maskComments: bool, chunks: seq<string>, k: nat)
    requires k < |chunks| && chunks[k] == ""
    ensures !Shows(rule, hits, maskComments, chunks, k) && !Makes(rule, hits, maskComments, chunks, k)
  {
  }

  /** Whatever the limit, nothing else is found: a rule in the result matches in the
      stream, or a window made a match, at one of its cuts. */
  lemma OnlyCutsAdd(engine: Engine, r: nat, hits: Pattern, maskComments: bool, sampleLimit: nat, chunks: seq<string>)
    returns (k: nat, i: nat, j: nat)
    requires WellBehaved(engine) && DistinctNames(engine) && r < |engine.rules| && Neighborly(engine.rules[r], hits)
    requires ScanSpec(engine, false, maskComments, sampleLimit, chunks, false).Scanned?
    requires Names(ScanSpec(engine, false, maskComments, sampleLimit, chunks, false).findings, engine.rules[r].id)
    requires !Occurs(hits, RuleStream(engine.rules[r], maskComments, chunks))
    ensures k < |chunks| && MadeIn(engine.rules[r], hits, maskComments, chunks, k, i, j) && !Contextless(hits)
    ensures || (i == WindowStart(chunks, k) && i > 0)
            || (j == WindowEnd(chunks, k) && j < |Concat(chunks)|)
  {
    hide ScanSpec, Examined, Finds, WindowOf, Steady, RuleWindow, Neighborly, RuleStream, Hit, WindowStart, WindowEnd;
    var rule := engine.rules[r];
    NeighborlyIsSteady(rule, hits);
    MissedExactly(engine, r, maskComments, sampleLimit, chunks);
    k :| 0 <= k < |chunks| && chunks[k] != "" && Finds(rule, RuleWindow(rule, maskComments, chunks, k));
    WindowFinds(rule, hits, maskComments, chunks, k);
    WindowLies(rule, maskComments, chunks, k);
    i, j :| MadeIn(rule, hits, maskComments, chunks, k, i, j);
    CutsOnlyAtEnds(hits, RuleStream(rule, maskComments, chunks), WindowStart(chunks, k), WindowEnd(chunks, k), i, j);
    StreamSizes(rule, maskComments, chunks);
  }

  /** While no window is overfull, every match that leaves the overlap room for the
      bytes next to it is found: up to 16383 bytes, and two more for rules that do
      not see them. */
  lemma ShortMatchesAreFound(engine: Engine, r: nat, hits: Pattern, maskComments: bool, sampleLimit: nat,
                             chunks: seq<string>, i: nat, j: nat)
    requires WellBehaved(engine) && DistinctNames(engine) && r < |engine.rules|
    requires Neighborly(engine.rules[r], hits) && NoWindowOverfull(engine, maskComments, chunks)
    requires ScanSpec(engine, false, maskComments, sampleLimit, chunks, false).Scanned?
    requires Hit(hits, RuleStream(engine.rules[r], maskComments, chunks), i, j)
    requires j - i <= 16383 || (Contextless(hits) && j - i <= 16385)
    ensures Names(ScanSpec(engine, false, maskComments, sampleLimit, chunks, false).findings, engine.rules[r].id)
  {
    hide ScanSpec, NoWindowOverfull, Neighborly, RuleStream;
    var k := ShortIsShown(engine.rules[r], hits, maskComments, chunks, i, j);
    assert Shows(engine.rules[r], hits, maskComments, chunks, k);
    FoundExactly(engine, r, hits, maskComments, sampleLimit, chunks);
  }

  /** Some window holds the stretch, with the bytes next to it if `wide`. */
  lemma WindowAround(chunks: seq<string>, i: nat, j: nat, wide: bool) returns (k: nat)
    requires i < j <= |Concat(chunks)| && j - i <= if wide then 16383 else 16385
    ensures k < |chunks| && chunks[k] != "" && WindowStart(chunks, k) <= i && j <= WindowEnd(chunks, k)
    ensures wide ==> (i > WindowStart(chunks, k) || WindowStart(chunks, k) == 0)
    ensures wide ==> (j < WindowEnd(chunks, k) || WindowEnd(chunks, k) >= |Concat(chunks)|)
  {
    hide WindowStart;
    assert chunks[..|chunks|] == chunks;
    var a := if i > 0 && wide then i - 1 else i;
    var b := if j < |Concat(chunks)| && wide then j + 1 else j;
    k := WindowCovers(chunks, |chunks|, a, b);
  }

  lemma ShortIsShown(rule: Rule, hits: Pattern, maskComments: bool, chunks: seq<string>, i: nat, j: nat)
    returns (k: nat)
    requires Hit(hits, RuleStream(rule, maskComments, chunks), i, j)
    requires j - i <= 16383 || (Contextless(hits) && j - i <= 16385)
    ensures k < |chunks| && ShownIn(rule, hits, maskComments, chunks, k, i, j)
  {
    hide RuleStream, WindowStart, WindowEnd, Contextless, Hit, Concat;
    var stream := RuleStream(rule, maskComments, chunks);
    StreamSizes(rule, maskComments, chunks);
    HitLies(hits, stream, i, j);
    k := WindowAround(chunks, i, j, j - i <= 16383);
    WindowLies(rule, maskComments, chunks, k);
    CutsOnlyAtEnds(hits, stream, WindowStart(chunks, k), WindowEnd(chunks, k), i, j);
  }

  /** All matches are short enough to be found. */
  ghost predicate Short(hits: Pattern) {
    || (forall p, s, q :: hits(p, s, q) ==> |s| <= 16383)
    || (Contextless(hits) && forall p, s, q :: hits(p, s, q) ==> |s| <= 16385)
  }

  /** For a rule with short matches, while no window is overfull, the chunked scan
      finds it exactly when the stream has a match or some window made one.  For a
      rule that does not see the bytes next to a match no window makes any. */
  lemma ScanAgreesWithStream(engine: Engine, r: nat, hits: Pattern, maskComments: bool, sampleLimit: nat,
                             chunks: seq<string>)
    requires WellBehaved(engine) && DistinctNames(engine) && r < |engine.rules|
    requires Neighborly(engine.rules[r], hits) && Short(hits) && NoWindowOverfull(engine, maskComments, chunks)
    requires ScanSpec(engine, false, maskComments, sampleLimit, chunks, false).Scanned?
    ensures var named := Names(ScanSpec(engine, false, maskComments, sampleLimit, chunks, false).findings,
                               engine.rules[r].id);
            var occurs := Occurs(hits, RuleStream(engine.rules[r], maskComments, chunks));
            && (named <==>
                  || occurs
                  || exists k :: 0 <= k < |chunks| && Makes(engine.rules[r], hits, maskComments, chunks, k))
            && (Contextless(hits) ==> (named <==> occurs))
  {
    hide ScanSpec, NoWindowOverfull, Neighborly, RuleStream, MadeIn, Contextless, Hit;
    var rule := engine.rules[r];
    var stream := RuleStream(rule, maskComments, chunks);
    FoundExactly(engine, r, hits, maskComments, sampleLimit, chunks);
    if Occurs(hits, stream) {
      var i: nat, j: nat :| Hit(hits, stream, i, j);
      HitIsShort(hits, stream, i, j);
      ShortMatchesAreFound(engine, r, hits, maskComments, sampleLimit, chunks, i, j);
    } else if Names(ScanSpec(engine, false, maskComments, sampleLimit, chunks, false).findings, rule.id) {
      var k, i, j := OnlyCutsAdd(engine, r, hits, maskComments, sampleLimit, chunks);
      assert Makes(rule, hits, maskComments, chunks, k);
    }
  }

  lemma HitIsShort(hits: Pattern, text: string, i: nat, j: nat)
    requires Short(hits) && Hit(hits, text, i, j)
    ensures j - i <= 16383 || (Contextless(hits) && j - i <= 16385)
  {
    assert |text[i..j]| == j - i;
  }

  // ---------------------------------------------------------------- a match made by a cut

  predicate Wordy(c: Option<char>) {
    c.Some? && 'a' <= c.value <= 'z'
  }

  /** The word `a`, as in the regular expression `\ba\b`. */
  predicate WordA(p: Option<char>, s: string, q: Option<char>) {
    |s| == 1 && s[0] == 'a' && !Wordy(p) && !Wordy(q)
  }

  /** The first `n` matches from `pos` on. */
  function FindWord(text: string, pos: nat, n: nat): (ms: seq<Match>)
    requires pos <= |text|
    ensures |ms| <= |text| - pos
    ensures forall i :: 0 <= i < |ms| ==> pos <= ms[i].start && Hit(WordA, text, ms[i].start, ms[i].end)
    ensures forall i :: 0 < i < |ms| ==> ms[i - 1].start <= ms[i].start
    decreases |text| - pos
  {
    if n == 0 || pos == |text| then []
    else if Hit(WordA, text, pos, pos + 1) then [Match(pos, pos + 1)] + FindWord(text, pos + 1, n - 1)
    else FindWord(text, pos + 1, n)
  }

  lemma {:induction false} FindWordFinds(text: string, pos: nat, n: nat, i: nat, j: nat)
    requires n > 0 && pos <= i && Hit(WordA, text, i, j)
    ensures FindWord(text, pos, n) != []
    decreases i - pos
  {
    assert |text[i..j]| == j - i;
    if pos < i && !Hit(WordA, text, pos, pos + 1) {
      FindWordFinds(text, pos + 1, n, i, j);
    }
  }

  const WORD_RULE := Rule("word", false, false, (text: string, n: nat) => FindWord(text, 0, n))

  const WORD_ENGINE := Engine([WORD_RULE], 10, (s: string) => s, (s: string, off: nat, n: nat) => [])

  lemma WordRuleIsNeighborly()
    ensures Neighborly(WORD_RULE, WordA)
  {
    hide Hit, FindWord;
    forall text: string, n: nat | n > 0 && Occurs(WordA, text) ensures WORD_RULE.find(text, n) != [] {
      var i: nat, j: nat :| Hit(WordA, text, i, j);
      FindWordFinds(text, 0, n, i, j);
    }
    forall text: string, n: nat ensures InOrder(WORD_RULE.find(text, n), |text|) {
      WordsLie(text, n);
    }
  }

  lemma WordsLie(text: string, n: nat)
    ensures InOrder(FindWord(text, 0, n), |text|)
  {
  }

  lemma WordEngineIsFine()
    ensures WellBehaved(WORD_ENGINE) && DistinctNames(WORD_ENGINE) && Steady(WORD_RULE)
  {
    hide Neighborly, FindWord;
    WordRuleIsNeighborly();
    assert Ordered(WORD_RULE) by { NeighborlyIsOrdered(WORD_RULE, WordA); }
    NeighborlyIsSteady(WORD_RULE, WordA);
  }

  lemma NeighborlyIsOrdered(rule: Rule, hits: Pattern)
    requires Neighborly(rule, hits)
    ensures Ordered(rule)
  {
  }

  lemma {:induction false} MergeSize(found: seq<Finding>, batch: seq<Finding>, limit: nat)
    ensures |Merge(found, batch, limit)| <= |found| + |batch|
    decreases |batch|
  {
    hide Keys, KeyOf;
    if batch != [] && |found| <= limit {
      if KeyOf(batch[0]) in Keys(found) {
        MergeSize(found, batch[1..], limit);
      } else {
        MergeSize(found + [batch[0]], batch[1..], limit);
      }
    }
  }

  lemma {:induction false} RepresentativeSize(findings: seq<Finding>)
    ensures |Representative(findings)| <= |findings|
  {
    hide CountSoft;
    if findings != [] {
      RepresentativeSize(findings[..|findings| - 1]);
    }
  }

  /** A window of the word rule has at most as many findings as bytes. */
  lemma WordWindow(chunks: seq<string>, k: nat)
    requires WellBehaved(WORD_ENGINE) && k < |chunks| && |StreamTo(chunks, k + 1)| <= WORD_ENGINE.limit
    ensures |WindowFindings(WORD_ENGINE, false, chunks, k)| <= |StreamTo(chunks, k + 1)|
    ensures Examined(WORD_ENGINE, 0, WindowOf(false, chunks, k))
  {
    hide Representative, PreparedFrom, FindWord, Reports, StreamTo, WindowStart;
    StreamGrows(chunks, k);
    var w := WindowOf(false, chunks, k);
    FoundNothing(WORD_ENGINE, w);
    PreparedFromFound(WORD_ENGINE, 0, w);
    assert |FoundBefore(WORD_ENGINE, 1, w)| <= |w.text|;
    RepresentativeSize(Prepared(WORD_ENGINE, w.text, w.behavior, w.lineOffset));
  }

  lemma {:induction false} WordScanSucceeds(chunks: seq<string>, n: nat)
    requires WellBehaved(WORD_ENGINE) && n <= |chunks| && n * |Concat(chunks)| <= WORD_ENGINE.limit
    ensures |FoundAfter(WORD_ENGINE, false, chunks, n)| <= n * |Concat(chunks)|
  {
    hide WindowFindings, Merge, StreamTo;
    if n > 0 {
      var size := |Concat(chunks)|;
      assert n * size == (n - 1) * size + size;
      WordScanSucceeds(chunks, n - 1);
      StreamBound(chunks, n);
      WordWindow(chunks, n - 1);
      FoundStep(WORD_ENGINE, false, chunks, n - 1);
      MergeSize(FoundAfter(WORD_ENGINE, false, chunks, n - 1), WindowFindings(WORD_ENGINE, false, chunks, n - 1),
        WORD_ENGINE.limit);
    }
  }

  lemma WordIsFound()
    ensures Finds(WORD_RULE, "a") && !Finds(WORD_RULE, "ab")
  {
    var a, ab := "a", "ab";
    assert a[0..1][0] == 'a' && ab[0..1][0] == 'a' && ab[1..2][0] == 'b';
    assert WordA(None, a[0..1], None) && !WordA(None, ab[0..1], Some('b')) && !WordA(Some('a'), ab[1..2], None);
    assert Hit(WordA, a, 0, 1) && !Hit(WordA, ab, 0, 1) && !Hit(WordA, ab, 1, 2);
    assert FindWord(ab, 0, 1) == FindWord(ab, 1, 1) == FindWord(ab, 2, 1) == [];
  }

  /** Read in one piece, "ab" does not contain the word `a`; read as "a" and "b" it
      does, for the first window ends behind it. */
  lemma CutMakesAMatch()
    ensures WellBehaved(WORD_ENGINE) && DistinctNames(WORD_ENGINE) && Neighborly(WORD_RULE, WordA)
    ensures ScanSpec(WORD_ENGINE, false, false, 0, ["ab"], false).Scanned?
    ensures ScanSpec(WORD_ENGINE, false, false, 0, ["a", "b"], false).Scanned?
    ensures !Names(ScanSpec(WORD_ENGINE, false, false, 0, ["ab"], false).findings, "word")
    ensures Names(ScanSpec(WORD_ENGINE, false, false, 0, ["a", "b"], false).findings, "word")
  {
    hide FindWord, FoundAfter, Neighborly, Finds, ScanSpec, WindowOf, RuleWindow, Examined;
    WordEngineIsFine();
    WordRuleIsNeighborly();
    WordIsFound();
    var one, two := ["ab"], ["a", "b"];
    OneRead();
    TwoReads();
    WordScanned(one);
    WordScanned(two);
    MissedExactly(WORD_ENGINE, 0, false, 0, one);
    MissedExactly(WORD_ENGINE, 0, false, 0, two);
    WordWindow(two, 0);
  }

  lemma WordScanned(chunks: seq<string>)
    requires WellBehaved(WORD_ENGINE) && |chunks| <= 2 && |Concat(chunks)| <= 2
    ensures ScanSpec(WORD_ENGINE, false, false, 0, chunks, false).Scanned?
  {
    hide FindWord, FoundAfter;
    WordScanSucceeds(chunks, |chunks|);
  }

  lemma OneRead()
    ensures Concat(["ab"]) == "ab" && RuleWindow(WORD_RULE, false, ["ab"], 0) == "ab"
  {
    OneChunk("ab");
  }

  lemma TwoReads()
    ensures Concat(["a", "b"]) == "ab" && StreamTo(["a", "b"], 1) == "a"
    ensures RuleWindow(WORD_RULE, false, ["a", "b"], 0) == "a"
  {
    var two := ["a", "b"];
    assert two[1..] == ["b"] && two[1..][1..] == [] && two[..1] == ["a"] && ["a"][1..] == [] && two[..0] == [];
    assert Concat(["b"]) == "b" + Concat([]) == "b";
    assert Concat(two) == "a" + Concat(["b"]);
  }
}
