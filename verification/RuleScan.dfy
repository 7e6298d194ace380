/** The streaming rule scan of internal/brief/rules.go.

    A file is read chunk by chunk.  Each chunk is scanned behind the last 16 KiB
    of what came before it, findings are told apart by rule, line and evidence,
    and repetitions are capped.  The regular expressions, the evidence text and
    the Unicode checks are parameters. */
module RuleScan {
  import opened Text
  import opened ShellComments
  import UnifiedDiff

  const OVERLAP: nat := 16384
  const MAX_PER_RULE: nat := 3

  /** One reported match: the half-open range `start..end` of the scanned text. */
  datatype Match = Match(start: nat, end: nat)

  /** `find(text, n)` reports at most the first `n` matches in `text`, in order.
      Rules with `onOriginal` see the text with its comments. */
  datatype Rule = Rule(id: string, onOriginal: bool, hard: bool, find: (string, nat) -> seq<Match>)

  datatype Finding = Finding(ruleID: string, line: nat, evidence: string, hard: bool)

  /** `evidence` is the report text of a match, `extra(text, lineOffset, n)` the
      at most `n` findings of the Unicode checks. */
  datatype Engine = Engine(
    rules: seq<Rule>, limit: nat, evidence: string -> string, extra: (string, nat, nat) -> seq<Finding>)

  /** Matches lie in a text of `size` bytes and come in order. */
  predicate InOrder(matches: seq<Match>, size: nat) {
    && (forall i :: 0 <= i < |matches| ==> matches[i].start <= matches[i].end <= size)
    && (forall i :: 0 < i < |matches| ==> matches[i - 1].start <= matches[i].start)
  }

  ghost predicate Ordered(rule: Rule) {
    forall text: string, n: nat :: InOrder(rule.find(text, n), |text|)
  }

  ghost predicate WellBehaved(engine: Engine) {
    forall k :: 0 <= k < |engine.rules| ==> Ordered(engine.rules[k])
  }

  // ---------------------------------------------------------------- one text

  function LineOf(text: string, pos: nat, lineOffset: nat): nat
    requires pos <= |text|
  {
    lineOffset + 1 + Count(text[..pos], '\n')
  }

  function Report(engine: Engine, rule: Rule, text: string, m: Match, lineOffset: nat): Finding
    requires m.start <= m.end <= |text|
  {
    Finding(rule.id, LineOf(text, m.start, lineOffset), engine.evidence(text[m.start..m.end]), rule.hard)
  }

  function Reports(engine: Engine, rule: Rule, text: string, ms: seq<Match>, lineOffset: nat): (r: seq<Finding>)
    requires InOrder(ms, |text|)
    ensures |r| == |ms|
    ensures forall i :: 0 <= i < |r| ==> r[i] == Report(engine, rule, text, ms[i], lineOffset)
  {
    seq(|ms|, i requires 0 <= i < |ms| => Report(engine, rule, text, ms[i], lineOffset))
  }

  function RuleText(rule: Rule, text: string, behavior: string): string {
    if rule.onOriginal then text else behavior
  }

  /** The findings of rules `k..` after `found`: a rule is skipped once more
      than `limit` findings are there. */
  function PreparedFrom(engine: Engine, k: nat, text: string, behavior: string, lineOffset: nat,
                        found: seq<Finding>): seq<Finding>
    requires WellBehaved(engine) && k <= |engine.rules|
    decreases |engine.rules| - k
  {
    if k == |engine.rules| || |found| > engine.limit then found
    else
      var rule := engine.rules[k];
      var ruleText := RuleText(rule, text, behavior);
      var ms := rule.find(ruleText, engine.limit + 1 - |found|);
      assert Ordered(rule);
      PreparedFrom(engine, k + 1, text, behavior, lineOffset, found + Reports(engine, rule, ruleText, ms, lineOffset))
  }

  function Prepared(engine: Engine, text: string, behavior: string, lineOffset: nat): seq<Finding>
    requires WellBehaved(engine)
  {
    var found := PreparedFrom(engine, 0, text, behavior, lineOffset, []);
    if |found| > engine.limit then found
    else found + engine.extra(text, lineOffset, engine.limit + 1 - |found|)
  }

  function CountSoft(findings: seq<Finding>, id: string): nat {
    if findings == [] then 0
    else
      var last := findings[|findings| - 1];
      CountSoft(findings[..|findings| - 1], id) + if last.ruleID == id && !last.hard then 1 else 0
  }

  /** Every hard finding, and the first three others of each rule. */
  function Representative(findings: seq<Finding>): seq<Finding> {
    if findings == [] then []
    else
      var init, last := findings[..|findings| - 1], findings[|findings| - 1];
      if last.hard || CountSoft(init, last.ruleID) < MAX_PER_RULE then Representative(init) + [last]
      else Representative(init)
  }

  method PreparedFindings(engine: Engine, text: string, behavior: string, lineOffset: nat)
    returns (findings: seq<Finding>)
    requires WellBehaved(engine)
    ensures findings == Prepared(engine, text, behavior, lineOffset)
  {
    findings := [];
    ghost var goal := PreparedFrom(engine, 0, text, behavior, lineOffset, []);
    var k := 0;
    while k < |engine.rules|
      invariant k <= |engine.rules|
      invariant PreparedFrom(engine, k, text, behavior, lineOffset, findings) == goal
    {
      var rule := engine.rules[k];
      if |findings| > engine.limit {
        break;
      }
      var ruleText := RuleText(rule, text, behavior);
      var matches := rule.find(ruleText, engine.limit + 1 - |findings|);
      assert Ordered(rule);
      var reports := ReportMatches(engine, rule, ruleText, matches, lineOffset);
      findings := findings + reports;
      k := k + 1;
    }
    if |findings| <= engine.limit {
      findings := findings + engine.extra(text, lineOffset, engine.limit + 1 - |findings|);
    }
  }

  /** Line numbers are counted on from the match before. */
  method ReportMatches(engine: Engine, rule: Rule, text: string, matches: seq<Match>, lineOffset: nat)
    returns (findings: seq<Finding>)
    requires InOrder(matches, |text|)
    ensures findings == Reports(engine, rule, text, matches, lineOffset)
  {
    findings := [];
    var line, previousOffset := lineOffset + 1, 0;
    assert Count(text[..0], '\n') == 0;
    for i := 0 to |matches|
      invariant previousOffset == (if i == 0 then 0 else matches[i - 1].start)
      invariant line == LineOf(text, previousOffset, lineOffset)
      invariant |findings| == i
      invariant forall j :: 0 <= j < i ==> findings[j] == Report(engine, rule, text, matches[j], lineOffset)
    {
      var m := matches[i];
      line := line + Count(text[previousOffset..m.start], '\n');
      assert text[..m.start] == text[..previousOffset] + text[previousOffset..m.start];
      CountAppend(text[..previousOffset], text[previousOffset..m.start], '\n');
      previousOffset := m.start;
      findings := findings + [Finding(rule.id, line, engine.evidence(text[m.start..m.end]), rule.hard)];
    }
  }

  method RepresentativeFindings(findings: seq<Finding>) returns (result: seq<Finding>)
    ensures result == Representative(findings)
  {
    result := [];
    var counts: map<string, nat> := map[];
    for i := 0 to |findings|
      invariant result == Representative(findings[..i])
      invariant forall id :: CountedSoft(counts, id) == Min(MAX_PER_RULE, CountSoft(findings[..i], id))
    {
      var finding := findings[i];
      assert findings[..i + 1][..i] == findings[..i];
      var count := if finding.ruleID in counts then counts[finding.ruleID] else 0;
      assert count == CountedSoft(counts, finding.ruleID);
      if finding.hard || count < MAX_PER_RULE {
        result := result + [finding];
        if !finding.hard {
          counts := counts[finding.ruleID := count + 1];
        }
      }
    }
    assert findings[..|findings|] == findings;
  }

  function Min(a: nat, b: nat): nat {
    if a < b then a else b
  }

  function CountedSoft(counts: map<string, nat>, id: string): nat {
    if id in counts then counts[id] else 0
  }

  // ---------------------------------------------------------------- a stream

  type Key = (string, nat, string)

  function KeyOf(f: Finding): Key {
    (f.ruleID, f.line, f.evidence)
  }

  function Keys(findings: seq<Finding>): (keys: set<Key>)
    ensures forall i :: 0 <= i < |findings| ==> KeyOf(findings[i]) in keys
  {
    set f | f in findings :: KeyOf(f)
  }

  /** Adds the findings of a window that are not there yet, until more than
      `limit` are. */
  function Merge(found: seq<Finding>, batch: seq<Finding>, limit: nat): seq<Finding>
    decreases |batch|
  {
    if batch == [] || |found| > limit then found
    else if KeyOf(batch[0]) in Keys(found) then Merge(found, batch[1..], limit)
    else Merge(found + [batch[0]], batch[1..], limit)
  }

  /** The last `n` bytes of `s`. */
  function Tail(s: string, n: nat): string {
    if |s| > n then s[|s| - n..] else s
  }

  function StreamTo(chunks: seq<string>, k: nat): string
    requires k <= |chunks|
  {
    Concat(chunks[..k])
  }

  /** Where the window of read `k` begins in the stream. */
  function WindowStart(chunks: seq<string>, k: nat): (start: nat)
    requires k < |chunks|
    ensures start <= |StreamTo(chunks, k)|
  {
    var before := |StreamTo(chunks, k)|;
    if before > OVERLAP then before - OVERLAP else 0
  }

  /** The stream as the rules about behavior see it. */
  function View(maskComments: bool, stream: string): (view: string)
    ensures |view| == |stream|
  {
    if maskComments then Masked(START, stream) else stream
  }

  /** Scanning the window of read `k`, line numbers counted from the stream's start. */
  function WindowFindings(engine: Engine, maskComments: bool, chunks: seq<string>, k: nat): seq<Finding>
    requires WellBehaved(engine) && k < |chunks|
  {
    StreamGrows(chunks, k);
    var stream, start := StreamTo(chunks, k + 1), WindowStart(chunks, k);
    Representative(Prepared(engine, stream[start..], View(maskComments, stream)[start..], Count(stream[..start], '\n')))
  }

  function FoundAfter(engine: Engine, maskComments: bool, chunks: seq<string>, k: nat): seq<Finding>
    requires WellBehaved(engine) && k <= |chunks|
  {
    if k == 0 then []
    else if chunks[k - 1] == "" then FoundAfter(engine, maskComments, chunks, k - 1)
    else Merge(FoundAfter(engine, maskComments, chunks, k - 1), WindowFindings(engine, maskComments, chunks, k - 1),
      engine.limit)
  }

  datatype ScanResult = Failed | Scanned(findings: seq<Finding>, sample: string, total: nat)

  /** What `ScanReader` returns; `readFails` says that the reader ends in an error. */
  function ScanSpec(engine: Engine, diffCandidate: bool, maskComments: bool, sampleLimit: nat,
                    chunks: seq<string>, readFails: bool): ScanResult
    requires WellBehaved(engine)
  {
    var stream := Concat(chunks);
    var found := FoundAfter(engine, maskComments, chunks, |chunks|);
    var sample := if |stream| > sampleLimit then stream[..sampleLimit] else stream;
    var (view, isDiff) := UnifiedDiff.BehaviorText(diffCandidate, stream);
    if readFails then Failed
    else if diffCandidate && |stream| <= sampleLimit && isDiff then
      var findings := Prepared(engine, stream, view, 0);
      if |findings| > engine.limit then Failed else Scanned(Representative(findings), sample, |stream|)
    else if |found| > engine.limit then Failed
    else Scanned(Representative(found), sample, |stream|)
  }

  lemma StreamGrows(chunks: seq<string>, k: nat)
    requires k < |chunks|
    ensures StreamTo(chunks, k + 1) == StreamTo(chunks, k) + chunks[k]
  {
    assert chunks[..k + 1] == chunks[..k] + [chunks[k]];
    ConcatAppend(chunks[..k], [chunks[k]]);
    assert Concat([chunks[k]]) == chunks[k];
  }

  lemma FoundStep(engine: Engine, maskComments: bool, chunks: seq<string>, k: nat)
    requires WellBehaved(engine) && k < |chunks|
    ensures var found := FoundAfter(engine, maskComments, chunks, k);
            FoundAfter(engine, maskComments, chunks, k + 1) ==
            if chunks[k] == "" || |found| > engine.limit then found
            else Merge(found, WindowFindings(engine, maskComments, chunks, k), engine.limit)
  {
    hide WindowFindings, Keys;
  }

  lemma {:induction false} MergeStaysOver(engine: Engine, maskComments: bool, chunks: seq<string>, j: nat, k: nat)
    requires WellBehaved(engine) && j <= k <= |chunks|
    requires |FoundAfter(engine, maskComments, chunks, j)| > engine.limit
    ensures |FoundAfter(engine, maskComments, chunks, k)| > engine.limit
  {
    hide WindowFindings, Keys;
    if j < k {
      MergeStaysOver(engine, maskComments, chunks, j, k - 1);
    }
  }

  method MergeFindings(found: seq<Finding>, seen: set<Key>, batch: seq<Finding>, limit: nat)
    returns (found': seq<Finding>, seen': set<Key>)
    requires seen == Keys(found)
    ensures found' == Merge(found, batch, limit) && seen' == Keys(found')
  {
    found', seen' := found, seen;
    var i := 0;
    assert batch[0..] == batch;
    while i < |batch|
      invariant i <= |batch| && seen' == Keys(found')
      invariant Merge(found', batch[i..], limit) == Merge(found, batch, limit)
    {
      if |found'| > limit {
        return;
      }
      var key := KeyOf(batch[i]);
      assert batch[i..][1..] == batch[i + 1..];
      if key !in seen' {
        seen' := seen' + {key};
        found' := found' + [batch[i]];
      }
      i := i + 1;
    }
  }

  lemma ShortTail()
    ensures Tail("", OVERLAP) == ""
  {
  }

  /** The first `n` bytes. */
  function Head(s: string, n: nat): string {
    if |s| > n then s[..n] else s
  }

  lemma HeadGrows(s: string, more: string, n: nat)
    ensures Head(s + more, n) == if |Head(s, n)| < n then Head(s, n) + more[..Min(n - |Head(s, n)|, |more|)]
              else Head(s, n)
  {
    assert more[..|more|] == more;
  }

  /** The whole stream was sampled if and only if it is no longer than the limit. */
  lemma HeadIsWhole(s: string, n: nat)
    ensures |s| == |Head(s, n)| <==> |s| <= n
    ensures |s| <= n ==> Head(s, n) == s
    ensures |s| > n ==> Head(s, n) == s[..n]
    ensures Head("", n) == ""
  {
  }

  method ScanReader(engine: Engine, diffCandidate: bool, maskComments: bool, sampleLimit: nat,
                    chunks: seq<string>, readFails: bool)
    returns (result: ScanResult)
    requires WellBehaved(engine)
    ensures result == ScanSpec(engine, diffCandidate, maskComments, sampleLimit, chunks, readFails)
  {
    hide UnifiedDiff.BehaviorText, FoundAfter, Prepared, Representative, Merge, Masked, After, Count, Concat, Keys,
         WindowFindings, WindowStart, View, Head, Tail;
    var sample, previousText, previousBehavior := "", "", "";
    var masker := new ShellCommentMasker();
    var lineOffset, total := 0, 0;
    var findings: seq<Finding> := [];
    var seen: set<Key> := {};
    var rawOverLimit := false;
    ghost var stream := "";
    ScanStarts(engine, maskComments, chunks);
    HeadIsWhole("", sampleLimit);
    assert Tail("", OVERLAP) == "" by { ShortTail(); }
    for k := 0 to |chunks|
      invariant stream == StreamTo(chunks, k) && total == |stream|
      invariant sample == Head(stream, sampleLimit)
      invariant previousText == Tail(stream, OVERLAP)
      invariant previousBehavior == Tail(View(maskComments, stream), OVERLAP)
      invariant lineOffset == Count(stream, '\n')
      invariant masker.Now() == if maskComments then After(START, stream) else START
      invariant findings == FoundAfter(engine, maskComments, chunks, k) && seen == Keys(findings)
      invariant rawOverLimit == (|findings| > engine.limit)
      invariant rawOverLimit ==> diffCandidate && total <= sampleLimit
    {
      var decoded := chunks[k];
      StreamGrows(chunks, k);
      CountAppend(stream, decoded, '\n');
      FoundStep(engine, maskComments, chunks, k);
      assert stream + "" == stream;
      if decoded != "" {
        total := total + |decoded|;
        HeadGrows(stream, decoded, sampleLimit);
        if |sample| < sampleLimit {
          var remaining := Min(sampleLimit - |sample|, |decoded|);
          sample := sample + decoded[..remaining];
        }
        var behaviorDecoded := decoded;
        if maskComments {
          behaviorDecoded := masker.Mask(decoded);
        }
        var combinedText := previousText + decoded;
        var combinedBehavior := previousBehavior + behaviorDecoded;
        var base := lineOffset - Count(previousText, '\n');
        WindowBytes(engine, maskComments, chunks, k, combinedText, combinedBehavior, behaviorDecoded, base);
        if base < 0 {
          base := 0;
        }
        var prepared := PreparedFindings(engine, combinedText, combinedBehavior, base);
        var batch := RepresentativeFindings(prepared);
        if !rawOverLimit {
          findings, seen := MergeFindings(findings, seen, batch, engine.limit);
          if |findings| > engine.limit {
            if !diffCandidate {
              MergeStaysOver(engine, maskComments, chunks, k + 1, |chunks|);
              return Failed;
            }
            rawOverLimit := true;
          }
        }
        if rawOverLimit && total > sampleLimit {
          MergeStaysOver(engine, maskComments, chunks, k + 1, |chunks|);
          StreamBound(chunks, k + 1);
          return Failed;
        }
        lineOffset := lineOffset + Count(decoded, '\n');
        previousText := Tail(combinedText, OVERLAP);
        previousBehavior := Tail(combinedBehavior, OVERLAP);
      }
      stream := stream + decoded;
    }
    assert chunks[..|chunks|] == chunks;
    HeadIsWhole(stream, sampleLimit);
    if readFails {
      return Failed;
    }
    if diffCandidate && total == |sample| {
      var view, ok := UnifiedDiff.UnifiedDiffBehaviorText(diffCandidate, sample);
      if ok {
        findings := PreparedFindings(engine, sample, view, 0);
        if |findings| > engine.limit {
          return Failed;
        }
        findings := RepresentativeFindings(findings);
        return Scanned(findings, sample, total);
      }
    }
    if rawOverLimit {
      return Failed;
    }
    findings := RepresentativeFindings(findings);
    return Scanned(findings, sample, total);
  }

  lemma {:induction false} StreamBound(chunks: seq<string>, k: nat)
    requires k <= |chunks|
    ensures StreamTo(chunks, k) <= Concat(chunks)
  {
    assert chunks == chunks[..k] + chunks[k..];
    ConcatAppend(chunks[..k], chunks[k..]);
  }

  lemma ScanStarts(engine: Engine, maskComments: bool, chunks: seq<string>)
    requires WellBehaved(engine)
    ensures FoundAfter(engine, maskComments, chunks, 0) == []
    ensures StreamTo(chunks, 0) == "" && View(maskComments, "") == "" && Count("", '\n') == 0
    ensures After(START, "") == START && Keys([]) == {} && chunks[..|chunks|] == chunks
  {
    assert chunks[..0] == [];
  }

  /** The combined buffers are the window of the stream, and the line base is
      the number of newlines before it: it is never negative. */
  lemma WindowBytes(engine: Engine, maskComments: bool, chunks: seq<string>, k: nat,
                    combinedText: string, combinedBehavior: string, behaviorDecoded: string, base: int)
    requires WellBehaved(engine) && k < |chunks|
    requires combinedText == Tail(StreamTo(chunks, k), OVERLAP) + chunks[k]
    requires behaviorDecoded == if maskComments then Masked(After(START, StreamTo(chunks, k)), chunks[k]) else chunks[k]
    requires combinedBehavior == Tail(View(maskComments, StreamTo(chunks, k)), OVERLAP) + behaviorDecoded
    requires base == Count(StreamTo(chunks, k), '\n') - Count(Tail(StreamTo(chunks, k), OVERLAP), '\n')
    ensures var stream, start := StreamTo(chunks, k + 1), WindowStart(chunks, k);
            && start <= |stream|
            && combinedText == stream[start..]
            && View(maskComments, stream) == View(maskComments, StreamTo(chunks, k)) + behaviorDecoded
            && combinedBehavior == View(maskComments, stream)[start..]
            && base == Count(stream[..start], '\n')
            && Tail(combinedText, OVERLAP) == Tail(stream, OVERLAP)
            && Tail(combinedBehavior, OVERLAP) == Tail(View(maskComments, stream), OVERLAP)
            && (maskComments ==> After(START, stream) == After(After(START, StreamTo(chunks, k)), chunks[k]))
    ensures base >= 0 && WindowFindings(engine, maskComments, chunks, k) ==
                         Representative(Prepared(engine, combinedText, combinedBehavior, base))
  {
    hide Prepared, Representative, Masked, After, Count, Concat;
    var before, start := StreamTo(chunks, k), WindowStart(chunks, k);
    StreamGrows(chunks, k);
    MaskAppend(START, before, chunks[k]);
    assert before == before[..start] + before[start..];
    CountAppend(before[..start], before[start..], '\n');
    assert (before + chunks[k])[..start] == before[..start];
    TailOfWindow(before, chunks[k]);
    TailOfWindow(View(maskComments, before), behaviorDecoded);
  }

  /** Behind the last bytes of `before`, `more` leaves the same last bytes as
      behind all of it. */
  lemma TailOfWindow(before: string, more: string)
    ensures Tail(Tail(before, OVERLAP) + more, OVERLAP) == Tail(before + more, OVERLAP)
    ensures var start := if |before| > OVERLAP then |before| - OVERLAP else 0;
            Tail(before, OVERLAP) + more == (before + more)[start..]
  {
  }
}
