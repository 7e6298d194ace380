/** What the streaming scan of RuleScan finds, for every split into chunks. */
module RuleScanCoverage {
  import opened Text
  import opened ShellComments
  import opened RuleScan

  // ---------------------------------------------------------------- windows

  /** Every stretch of at most 16385 bytes lies in the window of some
      chunk, wherever the chunks are cut. */
  lemma {:induction false} WindowCovers(chunks: seq<string>, n: nat, i: nat, j: nat) returns (k: nat)
    requires n <= |chunks| && i < j <= |StreamTo(chunks, n)| && j - i <= 16385
    ensures k < n && chunks[k] != ""
    ensures WindowStart(chunks, k) <= i && j <= |StreamTo(chunks, k + 1)|
    decreases n
  {
    StreamGrows(chunks, n - 1);
    if j <= |StreamTo(chunks, n - 1)| {
      k := WindowCovers(chunks, n - 1, i, j);
    } else {
      k := n - 1;
    }
  }

  // ---------------------------------------------------------------- findings of one text

  predicate Names(findings: seq<Finding>, id: string) {
    exists i :: 0 <= i < |findings| && findings[i].ruleID == id
  }

  lemma {:induction false} RepresentativeIsPart(findings: seq<Finding>, f: Finding)
    requires f in Representative(findings)
    ensures f in findings
  {
    var init := findings[..|findings| - 1];
    if f in Representative(init) {
      RepresentativeIsPart(init, f);
    }
  }

  lemma {:induction false} RepresentativeNamesSoft(findings: seq<Finding>, id: string)
    requires CountSoft(findings, id) > 0
    ensures Names(Representative(findings), id)
  {
    var init, last := findings[..|findings| - 1], findings[|findings| - 1];
    if CountSoft(init, id) > 0 {
      RepresentativeNamesSoft(init, id);
      var i :| 0 <= i < |Representative(init)| && Representative(init)[i].ruleID == id;
      assert Representative(findings)[i].ruleID == id;
    } else {
      assert Representative(findings)[|Representative(findings)| - 1] == last;
    }
  }

  /** Capping repetitions makes no rule disappear. */
  lemma {:induction false} RepresentativeNames(findings: seq<Finding>, id: string)
    ensures Names(Representative(findings), id) <==> Names(findings, id)
  {
    if Names(Representative(findings), id) {
      var i :| 0 <= i < |Representative(findings)| && Representative(findings)[i].ruleID == id;
      RepresentativeIsPart(findings, Representative(findings)[i]);
    }
    if Names(findings, id) {
      RepresentativeKeeps(findings, id);
    }
  }

  lemma {:induction false} RepresentativeKeeps(findings: seq<Finding>, id: string)
    requires Names(findings, id)
    ensures Names(Representative(findings), id)
  {
    var init, last := findings[..|findings| - 1], findings[|findings| - 1];
    if last.ruleID == id {
      if last.hard {
        assert Representative(findings)[|Representative(findings)| - 1] == last;
      } else {
        assert CountSoft(findings, id) > 0;
        RepresentativeNamesSoft(findings, id);
      }
    } else {
      var i :| 0 <= i < |findings| && findings[i].ruleID == id;
      assert init[i].ruleID == id;
      RepresentativeKeeps(init, id);
      var j :| 0 <= j < |Representative(init)| && Representative(init)[j].ruleID == id;
      assert Representative(findings)[j].ruleID == id;
    }
  }

  /** The hard findings all stay. */
  lemma {:induction false} RepresentativeKeepsHard(findings: seq<Finding>, f: Finding)
    requires f in findings && f.hard
    ensures f in Representative(findings)
  {
    var init, last := findings[..|findings| - 1], findings[|findings| - 1];
    if f != last {
      assert f in init;
      RepresentativeKeepsHard(init, f);
    }
  }

  datatype Window = Window(text: string, behavior: string, lineOffset: nat)

  /** What the rules before `r` report in a window. */
  function FoundBefore(engine: Engine, r: nat, w: Window): seq<Finding>
    requires WellBehaved(engine) && r <= |engine.rules|
  {
    if r == 0 then []
    else
      var found := FoundBefore(engine, r - 1, w);
      if |found| > engine.limit then found else found + RuleReports(engine, r - 1, w, found)
  }

  function RuleReports(engine: Engine, r: nat, w: Window, found: seq<Finding>): seq<Finding>
    requires WellBehaved(engine) && r < |engine.rules| && |found| <= engine.limit
  {
    var rule := engine.rules[r];
    var ruleText := RuleText(rule, w.text, w.behavior);
    assert Ordered(rule);
    Reports(engine, rule, ruleText, rule.find(ruleText, engine.limit + 1 - |found|), w.lineOffset)
  }

  /** Rule `r` gets its turn: the rules before it did not exceed the limit. */
  predicate Examined(engine: Engine, r: nat, w: Window)
    requires WellBehaved(engine) && r < |engine.rules|
  {
    |FoundBefore(engine, r, w)| <= engine.limit
  }

  /** Rule `r` gets its turn and matches. */
  predicate Reported(engine: Engine, r: nat, w: Window)
    requires WellBehaved(engine) && r < |engine.rules|
  {
    Examined(engine, r, w) && RuleReports(engine, r, w, FoundBefore(engine, r, w)) != []
  }

  lemma {:induction false} PreparedFromFound(engine: Engine, r: nat, w: Window)
    requires WellBehaved(engine) && r <= |engine.rules|
    ensures PreparedFrom(engine, r, w.text, w.behavior, w.lineOffset, FoundBefore(engine, r, w)) ==
            FoundBefore(engine, |engine.rules|, w)
    decreases |engine.rules| - r
  {
    if r < |engine.rules| {
      PreparedFromFound(engine, r + 1, w);
      if |FoundBefore(engine, r, w)| > engine.limit {
        OverfullStays(engine, r, |engine.rules|, w);
      }
    }
  }

  lemma {:induction false} OverfullStays(engine: Engine, r: nat, n: nat, w: Window)
    requires WellBehaved(engine) && r <= n <= |engine.rules| && |FoundBefore(engine, r, w)| > engine.limit
    ensures FoundBefore(engine, n, w) == FoundBefore(engine, r, w)
  {
    if r < n {
      OverfullStays(engine, r, n - 1, w);
    }
  }

  /** Rules have their own names, which the Unicode checks do not use. */
  ghost predicate DistinctNames(engine: Engine) {
    && (forall a, b :: 0 <= a < b < |engine.rules| ==> engine.rules[a].id != engine.rules[b].id)
    && (forall a, text: string, off: nat, n: nat :: 0 <= a < |engine.rules| ==>
         !Names(engine.extra(text, off, n), engine.rules[a].id))
  }

  lemma {:induction false} NamedBefore(engine: Engine, r: nat, n: nat, w: Window)
    requires WellBehaved(engine) && DistinctNames(engine) && r < |engine.rules| && n <= |engine.rules|
    ensures Names(FoundBefore(engine, n, w), engine.rules[r].id) <==> n > r && Reported(engine, r, w)
  {
    var id := engine.rules[r].id;
    if n > 0 {
      NamedBefore(engine, r, n - 1, w);
      var found := FoundBefore(engine, n - 1, w);
      if |found| <= engine.limit {
        var more := RuleReports(engine, n - 1, w, found);
        NamesOfConcat(found, more, id);
        if n - 1 == r && more != [] {
          assert more[0].ruleID == id;
        }
      } else if n - 1 == r {
        assert !Examined(engine, r, w);
      }
    }
  }

  lemma NamesOfConcat(a: seq<Finding>, b: seq<Finding>, id: string)
    ensures Names(a + b, id) <==> Names(a, id) || Names(b, id)
  {
    if Names(a, id) {
      var i :| 0 <= i < |a| && a[i].ruleID == id;
      assert (a + b)[i].ruleID == id;
    }
    if Names(b, id) {
      var i :| 0 <= i < |b| && b[i].ruleID == id;
      assert (a + b)[|a| + i].ruleID == id;
    }
  }

  lemma NamedInWindow(engine: Engine, r: nat, w: Window)
    requires WellBehaved(engine) && DistinctNames(engine) && r < |engine.rules|
    ensures Names(Representative(Prepared(engine, w.text, w.behavior, w.lineOffset)), engine.rules[r].id) <==>
              Reported(engine, r, w)
  {
    hide Reported;
    var found, id := FoundBefore(engine, |engine.rules|, w), engine.rules[r].id;
    PreparedFromFound(engine, 0, w);
    NamedBefore(engine, r, |engine.rules|, w);
    if |found| <= engine.limit {
      NamesOfConcat(found, engine.extra(w.text, w.lineOffset, engine.limit + 1 - |found|), id);
    }
    RepresentativeNames(Prepared(engine, w.text, w.behavior, w.lineOffset), id);
  }

  // ---------------------------------------------------------------- merging windows

  lemma {:induction false} MergeNames(found: seq<Finding>, batch: seq<Finding>, limit: nat, id: string)
    requires |Merge(found, batch, limit)| <= limit
    ensures Names(Merge(found, batch, limit), id) <==> Names(found, id) || Names(batch, id)
    decreases |batch|
  {
    if batch != [] {
      assert batch == [batch[0]] + batch[1..];
      NamesOfConcat([batch[0]], batch[1..], id);
      if KeyOf(batch[0]) in Keys(found) {
        var f :| f in found && KeyOf(f) == KeyOf(batch[0]);
        MergeNames(found, batch[1..], limit, id);
        assert [batch[0]][0] == batch[0];
      } else {
        NamesOfConcat(found, [batch[0]], id);
        MergeNames(found + [batch[0]], batch[1..], limit, id);
      }
    }
  }

  lemma {:induction false} MergeIsPart(found: seq<Finding>, batch: seq<Finding>, limit: nat, f: Finding)
    requires f in Merge(found, batch, limit)
    ensures f in found || f in batch
    decreases |batch|
  {
    if batch != [] && |found| <= limit {
      if KeyOf(batch[0]) in Keys(found) {
        MergeIsPart(found, batch[1..], limit, f);
      } else {
        MergeIsPart(found + [batch[0]], batch[1..], limit, f);
      }
    }
  }

  function WindowOf(maskComments: bool, chunks: seq<string>, k: nat): Window
    requires k < |chunks|
  {
    StreamGrows(chunks, k);
    var stream, start := StreamTo(chunks, k + 1), WindowStart(chunks, k);
    Window(stream[start..], View(maskComments, stream)[start..], Count(stream[..start], '\n'))
  }

  predicate SeenBy(engine: Engine, r: nat, maskComments: bool, chunks: seq<string>, k: nat)
    requires WellBehaved(engine) && r < |engine.rules| && k < |chunks|
  {
    chunks[k] != "" && Reported(engine, r, WindowOf(maskComments, chunks, k))
  }

  lemma {:induction false} NamedAfter(engine: Engine, r: nat, maskComments: bool, chunks: seq<string>, n: nat)
    requires WellBehaved(engine) && DistinctNames(engine) && r < |engine.rules| && n <= |chunks|
    requires |FoundAfter(engine, maskComments, chunks, n)| <= engine.limit
    ensures Names(FoundAfter(engine, maskComments, chunks, n), engine.rules[r].id) <==>
            exists k :: 0 <= k < n && SeenBy(engine, r, maskComments, chunks, k)
  {
    hide Reported, Merge, Prepared, Representative;
    if n > 0 {
      if |FoundAfter(engine, maskComments, chunks, n - 1)| > engine.limit {
        MergeStaysOver(engine, maskComments, chunks, n - 1, n);
      }
      NamedAfter(engine, r, maskComments, chunks, n - 1);
      if chunks[n - 1] != "" {
        var batch := WindowFindings(engine, maskComments, chunks, n - 1);
        MergeNames(FoundAfter(engine, maskComments, chunks, n - 1), batch, engine.limit, engine.rules[r].id);
        NamedInWindow(engine, r, WindowOf(maskComments, chunks, n - 1));
        assert Names(batch, engine.rules[r].id) <==> SeenBy(engine, r, maskComments, chunks, n - 1);
      }
      assert (exists k :: 0 <= k < n && SeenBy(engine, r, maskComments, chunks, k)) <==>
             (exists k :: 0 <= k < n - 1 && SeenBy(engine, r, maskComments, chunks, k))
               || SeenBy(engine, r, maskComments, chunks, n - 1);
    }
  }

  // ---------------------------------------------------------------- main results

  /** A rule is in the result of a scan that succeeds exactly when, in some
      window, it got its turn and matched. */
  lemma InResultExactly(engine: Engine, r: nat, maskComments: bool, sampleLimit: nat, chunks: seq<string>)
    requires WellBehaved(engine) && DistinctNames(engine) && r < |engine.rules|
    requires ScanSpec(engine, false, maskComments, sampleLimit, chunks, false).Scanned?
    ensures Names(ScanSpec(engine, false, maskComments, sampleLimit, chunks, false).findings, engine.rules[r].id) <==>
            exists k :: 0 <= k < |chunks| && SeenBy(engine, r, maskComments, chunks, k)
  {
    hide SeenBy, Representative, FoundAfter;
    NamedAfter(engine, r, maskComments, chunks, |chunks|);
    RepresentativeNames(FoundAfter(engine, maskComments, chunks, |chunks|), engine.rules[r].id);
  }

  /** A rule that finds its first match no matter how many it is asked for. */
  ghost predicate Steady(rule: Rule) {
    forall text: string, n: nat :: n > 0 ==> (rule.find(text, n) != [] <==> Finds(rule, text))
  }

  predicate Finds(rule: Rule, text: string) {
    rule.find(text, 1) != []
  }

  lemma ReportedMeansFinds(engine: Engine, r: nat, w: Window)
    requires WellBehaved(engine) && r < |engine.rules| && Steady(engine.rules[r])
    ensures Reported(engine, r, w) <==>
            Examined(engine, r, w) && Finds(engine.rules[r], RuleText(engine.rules[r], w.text, w.behavior))
  {
    hide FoundBefore, Finds;
    if Examined(engine, r, w) {
      var text, n := RuleText(engine.rules[r], w.text, w.behavior), engine.limit + 1 - |FoundBefore(engine, r, w)|;
      assert engine.rules[r].find(text, n) != [] <==> Finds(engine.rules[r], text);
    }
  }

  /** The part of window `k` that the rule looks at. */
  function RuleWindow(rule: Rule, maskComments: bool, chunks: seq<string>, k: nat): string
    requires k < |chunks|
  {
    RuleText(rule, WindowOf(maskComments, chunks, k).text, WindowOf(maskComments, chunks, k).behavior)
  }

  /** A rule is missing from the result exactly when no window with a match gave it
      its turn: raw findings over the limit end a window silently, because they are
      capped before they are counted. */
  lemma MissedExactly(engine: Engine, r: nat, maskComments: bool, sampleLimit: nat, chunks: seq<string>)
    requires WellBehaved(engine) && DistinctNames(engine) && r < |engine.rules| && Steady(engine.rules[r])
    requires ScanSpec(engine, false, maskComments, sampleLimit, chunks, false).Scanned?
    ensures !Names(ScanSpec(engine, false, maskComments, sampleLimit, chunks, false).findings, engine.rules[r].id) <==>
            forall k :: 0 <= k < |chunks| && chunks[k] != "" &&
                        Finds(engine.rules[r], RuleWindow(engine.rules[r], maskComments, chunks, k)) ==>
                          !Examined(engine, r, WindowOf(maskComments, chunks, k))
  {
    hide ScanSpec, Examined, Finds, WindowOf, Steady;
    InResultExactly(engine, r, maskComments, sampleLimit, chunks);
    forall k | 0 <= k < |chunks|
      ensures SeenBy(engine, r, maskComments, chunks, k) <==>
              chunks[k] != "" && Examined(engine, r, WindowOf(maskComments, chunks, k)) &&
              Finds(engine.rules[r], RuleWindow(engine.rules[r], maskComments, chunks, k))
    {
      ReportedMeansFinds(engine, r, WindowOf(maskComments, chunks, k));
    }
  }

  /** No window holds more raw findings than the limit. */
  predicate NoWindowOverfull(engine: Engine, maskComments: bool, chunks: seq<string>)
    requires WellBehaved(engine)
  {
    forall k :: 0 <= k < |chunks| && chunks[k] != "" ==>
      |FoundBefore(engine, |engine.rules|, WindowOf(maskComments, chunks, k))| <= engine.limit
  }

  lemma {:induction false} ExaminedWhenNotOverfull(engine: Engine, r: nat, w: Window)
    requires WellBehaved(engine) && r < |engine.rules| && |FoundBefore(engine, |engine.rules|, w)| <= engine.limit
    ensures Examined(engine, r, w)
  {
    if |FoundBefore(engine, r, w)| > engine.limit {
      OverfullStays(engine, r, |engine.rules|, w);
    }
  }

  // ---------------------------------------------------------------- windows of the stream

  /** What the rule would look at in the whole stream: all of it, or all but the
      comments. */
  function RuleStream(rule: Rule, maskComments: bool, chunks: seq<string>): string {
    if rule.onOriginal || !maskComments then Concat(chunks) else Masked(START, Concat(chunks))
  }

  lemma WindowIsSlice(rule: Rule, maskComments: bool, chunks: seq<string>, k: nat)
    requires k < |chunks|
    ensures var w, start, end := WindowOf(maskComments, chunks, k), WindowStart(chunks, k), |StreamTo(chunks, k + 1)|;
            && start <= end <= |RuleStream(rule, maskComments, chunks)|
            && RuleText(rule, w.text, w.behavior) == RuleStream(rule, maskComments, chunks)[start..end]
            && w.text == Concat(chunks)[start..end]
  {
    var all, head := Concat(chunks), StreamTo(chunks, k + 1);
    StreamGrows(chunks, k);
    StreamBound(chunks, k + 1);
    assert all == head + all[|head|..];
    MaskAppend(START, head, all[|head|..]);
  }

  /** A slice of a slice. */
  lemma SliceOfSlice(s: string, start: nat, end: nat, i: nat, j: nat)
    requires start <= end <= |s| && i <= j <= end - start
    ensures s[start..end][i..j] == s[start + i..start + j]
  {
    var m := s[start..end];
    assert forall t :: 0 <= t < |m| ==> m[t] == s[start + t];
    assert m[i..j] == s[start + i..start + j];
  }

  // ---------------------------------------------------------------- line numbers

  lemma {:induction false} FromWindow(engine: Engine, maskComments: bool, chunks: seq<string>, n: nat, f: Finding)
    returns (k: nat)
    requires WellBehaved(engine) && n <= |chunks| && f in FoundAfter(engine, maskComments, chunks, n)
    ensures k < n && f in WindowFindings(engine, maskComments, chunks, k)
  {
    hide WindowFindings, Merge;
    var found := FoundAfter(engine, maskComments, chunks, n - 1);
    FoundStep(engine, maskComments, chunks, n - 1);
    if f in found {
      k := FromWindow(engine, maskComments, chunks, n - 1, f);
    } else {
      MergeIsPart(found, WindowFindings(engine, maskComments, chunks, n - 1), engine.limit, f);
      k := n - 1;
    }
  }

  /** `f` reports the match `m` of `rule` in the window. */
  predicate ReportsMatch(engine: Engine, rule: Rule, w: Window, m: Match, f: Finding) {
    && m.start <= m.end <= |RuleText(rule, w.text, w.behavior)|
    && f == Report(engine, rule, RuleText(rule, w.text, w.behavior), m, w.lineOffset)
  }

  lemma {:induction false} FromRule(engine: Engine, n: nat, w: Window, f: Finding) returns (r: nat, limit: nat, i: nat)
    requires WellBehaved(engine) && n <= |engine.rules| && f in FoundBefore(engine, n, w)
    ensures r < n
    ensures var ms := engine.rules[r].find(RuleText(engine.rules[r], w.text, w.behavior), limit);
            i < |ms| && ReportsMatch(engine, engine.rules[r], w, ms[i], f)
  {
    var found := FoundBefore(engine, n - 1, w);
    if f in found {
      r, limit, i := FromRule(engine, n - 1, w, f);
    } else {
      r, limit := n - 1, engine.limit + 1 - |found|;
      assert Ordered(engine.rules[r]);
      i :| 0 <= i < |RuleReports(engine, r, w, found)| && RuleReports(engine, r, w, found)[i] == f;
    }
  }

  lemma LineInStream(rule: Rule, maskComments: bool, chunks: seq<string>, k: nat, pos: nat)
    requires k < |chunks| && pos <= |RuleWindow(rule, maskComments, chunks, k)|
    ensures WindowStart(chunks, k) + pos <= |Concat(chunks)|
    ensures LineOf(RuleWindow(rule, maskComments, chunks, k), pos, WindowOf(maskComments, chunks, k).lineOffset) ==
            1 + Count(Concat(chunks)[..WindowStart(chunks, k) + pos], '\n')
  {
    hide Masked, Concat, Count, StreamTo;
    StreamGrows(chunks, k);
    StreamBound(chunks, k + 1);
    var stream, start := StreamTo(chunks, k + 1), WindowStart(chunks, k);
    var end, view := start + pos, View(maskComments, stream);
    NewlinesOfView(maskComments, stream, start);
    NewlinesOfView(maskComments, stream, end);
    assert Concat(chunks)[..end] == stream[..end];
    assert stream[..end] == stream[..start] + stream[start..][..pos];
    assert view[..end] == view[..start] + view[start..][..pos];
    CountAppend(stream[..start], stream[start..][..pos], '\n');
    CountAppend(view[..start], view[start..][..pos], '\n');
  }

  lemma NewlinesOfView(maskComments: bool, stream: string, n: nat)
    requires n <= |stream|
    ensures Count(View(maskComments, stream)[..n], '\n') == Count(stream[..n], '\n')
  {
    assert stream == stream[..n] + stream[n..];
    MaskAppend(START, stream[..n], stream[n..]);
    MaskKeepsNewlines(START, stream[..n]);
    assert (Masked(START, stream[..n]) + Masked(After(START, stream[..n]), stream[n..]))[..n] ==
      Masked(START, stream[..n]);
  }

  /** The finding reports the stretch `i..j` of the stream the rule looks at,
      with the true number of the line it starts on. */
  predicate TrueReport(engine: Engine, rule: Rule, maskComments: bool, chunks: seq<string>, f: Finding, i: nat,
                       j: nat) {
    && i <= j <= |RuleStream(rule, maskComments, chunks)| == |Concat(chunks)|
    && f.line == 1 + Count(Concat(chunks)[..i], '\n')
    && f.evidence == engine.evidence(RuleStream(rule, maskComments, chunks)[i..j])
    && f.hard == rule.hard
  }

  /** In some window the rule matches exactly this stretch. */
  ghost predicate MatchInWindow(rule: Rule, maskComments: bool, chunks: seq<string>, i: nat, j: nat) {
    exists k, n: nat, at: nat :: MatchOf(rule, maskComments, chunks, i, j, k, n, at)
  }

  predicate MatchOf(rule: Rule, maskComments: bool, chunks: seq<string>, i: nat, j: nat, k: nat, n: nat, at: nat) {
    && k < |chunks| && WindowStart(chunks, k) <= i <= j
    && var ms := rule.find(RuleWindow(rule, maskComments, chunks, k), n);
    at < |ms| && ms[at] == Match(i - WindowStart(chunks, k), j - WindowStart(chunks, k))
  }

  /** Every pattern finding of the result names a place of the stream by its
      true line, however the stream was cut. */
  lemma ReportedLinesAreTrue(engine: Engine, r: nat, maskComments: bool, sampleLimit: nat, chunks: seq<string>,
                             f: Finding)
    returns (i: nat, j: nat)
    requires WellBehaved(engine) && DistinctNames(engine) && r < |engine.rules|
    requires ScanSpec(engine, false, maskComments, sampleLimit, chunks, false).Scanned?
    requires f in ScanSpec(engine, false, maskComments, sampleLimit, chunks, false).findings
    requires f.ruleID == engine.rules[r].id
    ensures TrueReport(engine, engine.rules[r], maskComments, chunks, f, i, j)
    ensures MatchInWindow(engine.rules[r], maskComments, chunks, i, j)
  {
    hide Representative, FoundAfter, FoundBefore, Prepared, RuleStream, WindowOf, Count, Concat, StreamTo, WindowStart,
         Report;
    RepresentativeIsPart(FoundAfter(engine, maskComments, chunks, |chunks|), f);
    var k := FromWindow(engine, maskComments, chunks, |chunks|, f);
    var w, start := WindowOf(maskComments, chunks, k), WindowStart(chunks, k);
    InWindow(engine, maskComments, chunks, k, f);
    var r', limit, at := FromRule(engine, |engine.rules|, w, f);
    var rule := engine.rules[r'];
    var m := rule.find(RuleText(rule, w.text, w.behavior), limit)[at];
    ReportFields(engine, rule, w, m, f);
    assert r' == r;
    WindowIsSlice(rule, maskComments, chunks, k);
    SliceOfSlice(RuleStream(rule, maskComments, chunks), start, |StreamTo(chunks, k + 1)|, m.start, m.end);
    LineInStream(rule, maskComments, chunks, k, m.start);
    StreamSizes(rule, maskComments, chunks);
    i, j := start + m.start, start + m.end;
    assert MatchOf(rule, maskComments, chunks, i, j, k, limit, at);
  }

  lemma StreamSizes(rule: Rule, maskComments: bool, chunks: seq<string>)
    ensures |RuleStream(rule, maskComments, chunks)| == |Concat(chunks)|
  {
  }

  lemma ReportFields(engine: Engine, rule: Rule, w: Window, m: Match, f: Finding)
    requires ReportsMatch(engine, rule, w, m, f)
    ensures f.ruleID == rule.id && f.hard == rule.hard
    ensures f.line == LineOf(RuleText(rule, w.text, w.behavior), m.start, w.lineOffset)
    ensures f.evidence == engine.evidence(RuleText(rule, w.text, w.behavior)[m.start..m.end])
  {
  }

  lemma InWindow(engine: Engine, maskComments: bool, chunks: seq<string>, k: nat, f: Finding)
    requires WellBehaved(engine) && DistinctNames(engine) && k < |chunks|
    requires f in WindowFindings(engine, maskComments, chunks, k)
    requires exists r :: 0 <= r < |engine.rules| && engine.rules[r].id == f.ruleID
    ensures f in FoundBefore(engine, |engine.rules|, WindowOf(maskComments, chunks, k))
  {
    hide Representative, FoundBefore, PreparedFrom;
    var w := WindowOf(maskComments, chunks, k);
    var found := FoundBefore(engine, |engine.rules|, w);
    FoundNothing(engine, w);
    PreparedFromFound(engine, 0, w);
    RepresentativeIsPart(Prepared(engine, w.text, w.behavior, w.lineOffset), f);
  }

  lemma FoundNothing(engine: Engine, w: Window)
    requires WellBehaved(engine)
    ensures FoundBefore(engine, 0, w) == []
  {
  }

  // ---------------------------------------------------------------- an overfull window hides a rule

  /** The first `n` occurrences of the byte `c`, from `pos` on. */
  function FindByte(c: char, text: string, pos: nat, n: nat): (ms: seq<Match>)
    requires pos <= |text|
    ensures forall i :: 0 <= i < |ms| ==>
              pos <= ms[i].start && ms[i].end == ms[i].start + 1 <= |text| && text[ms[i].start] == c
    ensures forall i :: 0 < i < |ms| ==> ms[i - 1].start <= ms[i].start
    ensures n > 0 && c in text[pos..] ==> ms != []
    decreases |text| - pos
  {
    if n == 0 || pos == |text| then []
    else if text[pos] == c then [Match(pos, pos + 1)] + FindByte(c, text, pos + 1, n - 1)
    else
      assert text[pos..] == [text[pos]] + text[pos + 1..];
      FindByte(c, text, pos + 1, n)
  }

  function ByteRule(c: char): Rule {
    Rule([c], false, false, (text: string, n: nat) => FindByte(c, text, 0, n))
  }

  /** Two rules for single bytes, and room for three findings. */
  const SMALL_ENGINE := Engine([ByteRule('a'), ByteRule('b')], 3, (s: string) => s, (s: string, off: nat, n: nat) => [])

  lemma ByteRuleIsSteady(c: char)
    ensures Steady(ByteRule(c)) && forall text: string :: Finds(ByteRule(c), text) <==> c in text
  {
    var rule := ByteRule(c);
    forall text: string, n: nat | n > 0 ensures rule.find(text, n) != [] <==> c in text {
      assert text[0..] == text;
      if rule.find(text, n) != [] {
        assert text[rule.find(text, n)[0].start] == c;
      }
    }
  }

  /** The one window of a text read at once. */
  lemma OneChunk(text: string)
    requires 0 < |text| <= OVERLAP
    ensures WindowOf(false, [text], 0) == Window(text, text, 0) && Concat([text]) == text
  {
    assert [text][..1] == [text] && [text][..0] == [] && Concat([text]) == text;
  }

  lemma {:induction false} MergeOfOneKey(found: seq<Finding>, batch: seq<Finding>, limit: nat, key: Key)
    requires |found| <= 1 && forall i :: 0 <= i < |found| ==> KeyOf(found[i]) == key
    requires forall i :: 0 <= i < |batch| ==> KeyOf(batch[i]) == key
    ensures |Merge(found, batch, limit)| <= 1
    decreases |batch|
  {
    assert |found| > 0 ==> KeyOf(found[0]) in Keys(found);
    if batch != [] && |found| <= limit {
      if KeyOf(batch[0]) in Keys(found) {
        MergeOfOneKey(found, batch[1..], limit, key);
      } else {
        MergeOfOneKey(found + [batch[0]], batch[1..], limit, key);
      }
    }
  }

  const CROWDED := "aaaab"
  const CROWDED_WINDOW := Window(CROWDED, CROWDED, 0)

  lemma FourMatches()
    ensures FindByte('a', CROWDED, 0, 4) == [Match(0, 1), Match(1, 2), Match(2, 3), Match(3, 4)]
  {
  }

  lemma SmallEngineIsFine()
    ensures WellBehaved(SMALL_ENGINE) && DistinctNames(SMALL_ENGINE)
  {
  }

  /** The rule for `a` alone exceeds the limit. */
  lemma CrowdedFindings()
    requires WellBehaved(SMALL_ENGINE)
    ensures |FoundBefore(SMALL_ENGINE, 1, CROWDED_WINDOW)| == 4
    ensures forall f :: f in FoundBefore(SMALL_ENGINE, 1, CROWDED_WINDOW) ==> KeyOf(f) == ("a", 1, "a")
    ensures FoundBefore(SMALL_ENGINE, 2, CROWDED_WINDOW) == FoundBefore(SMALL_ENGINE, 1, CROWDED_WINDOW)
  {
    hide FindByte, WellBehaved, Reports, Report, KeyOf;
    FourMatches();
    FoundNothing(SMALL_ENGINE, CROWDED_WINDOW);
    var found, ms := FoundBefore(SMALL_ENGINE, 1, CROWDED_WINDOW), FindByte('a', CROWDED, 0, 4);
    assert [] + Reports(SMALL_ENGINE, ByteRule('a'), CROWDED, ms, 0) ==
      Reports(SMALL_ENGINE, ByteRule('a'), CROWDED, ms, 0);
    assert found == Reports(SMALL_ENGINE, ByteRule('a'), CROWDED, ms, 0);
    forall i | 0 <= i < 4 ensures KeyOf(found[i]) == ("a", 1, "a") {
      assert ms[i] == Match(i, i + 1);
      KeyOfCrowded(i);
    }
  }

  lemma KeyOfCrowded(i: nat)
    requires i < 4
    ensures KeyOf(Report(SMALL_ENGINE, ByteRule('a'), CROWDED, Match(i, i + 1), 0)) == ("a", 1, "a")
  {
    hide FindByte;
    assert CROWDED[i..i + 1] == "a";
    NoNewlines(CROWDED[..i]);
  }

  lemma {:induction false} NoNewlines(s: string)
    requires '\n' !in s
    ensures Count(s, '\n') == 0
  {
    if s != "" {
      NoNewlines(s[..|s| - 1]);
    }
  }

  lemma CrowdedScanSucceeds()
    requires WellBehaved(SMALL_ENGINE)
    ensures ScanSpec(SMALL_ENGINE, false, false, 0, [CROWDED], false).Scanned?
    ensures !Examined(SMALL_ENGINE, 1, WindowOf(false, [CROWDED], 0))
  {
    hide FindByte, FoundBefore, Merge, Representative, PreparedFrom, KeyOf, Keys, FoundAfter, WindowOf;
    OneChunk(CROWDED);
    var found := Prepared(SMALL_ENGINE, CROWDED, CROWDED, 0);
    CrowdedFindings();
    FoundNothing(SMALL_ENGINE, CROWDED_WINDOW);
    PreparedFromFound(SMALL_ENGINE, 0, CROWDED_WINDOW);
    forall f | f in Representative(found) ensures KeyOf(f) == ("a", 1, "a") {
      RepresentativeIsPart(found, f);
    }
    ScanStarts(SMALL_ENGINE, false, [CROWDED]);
    FoundStep(SMALL_ENGINE, false, [CROWDED], 0);
    OneWindow(SMALL_ENGINE);
    var batch := Representative(found);
    assert forall i :: 0 <= i < |batch| ==> batch[i] in batch;
    MergeOfOneKey([], batch, SMALL_ENGINE.limit, ("a", 1, "a"));
    assert FoundAfter(SMALL_ENGINE, false, [CROWDED], 1) == Merge([], batch, SMALL_ENGINE.limit);
    assert |[CROWDED]| == 1;
  }

  lemma OneWindow(engine: Engine)
    requires WellBehaved(engine)
    ensures WindowFindings(engine, false, [CROWDED], 0) == Representative(Prepared(engine, CROWDED, CROWDED, 0))
  {
    OneChunk(CROWDED);
  }

  /** In "aaaab" both bytes occur and the scan succeeds, but only the rule for
      `a` is in its result: its four matches end the window before `b`'s turn,
      and capping hides that the limit was exceeded. */
  lemma OverfullWindowHidesARule()
    ensures WellBehaved(SMALL_ENGINE) && DistinctNames(SMALL_ENGINE)
    ensures Steady(SMALL_ENGINE.rules[1])
    ensures Finds(SMALL_ENGINE.rules[1], RuleStream(SMALL_ENGINE.rules[1], false, [CROWDED]))
    ensures ScanSpec(SMALL_ENGINE, false, false, 0, [CROWDED], false).Scanned?
    ensures !Names(ScanSpec(SMALL_ENGINE, false, false, 0, [CROWDED], false).findings, SMALL_ENGINE.rules[1].id)
  {
    hide FindByte, FoundBefore, ScanSpec, WindowOf;
    SmallEngineIsFine();
    CrowdedScanSucceeds();
    OneChunk(CROWDED);
    ByteRuleIsSteady('b');
    assert CROWDED[4] == 'b';
    InResultExactly(SMALL_ENGINE, 1, false, 0, [CROWDED]);
  }
}
