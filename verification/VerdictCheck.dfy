/** Three views of one provider verdict that have to agree: Verdict.Validate
    (internal/audit/models.go 50-83), the diagnosis of a failing verdict
    (internal/audit/llm_diagnostic.go 150-306) and what the review loop accepts
    (internal/audit/review.go 442-473); and the answer schema that is bound to the
    review targets (internal/audit/ollama.go 423-476). */
module VerdictCheck {
  import opened Text

  datatype Guidance = Guidance(findingId: string, assessment: string, comment: string, anchorQuote: string)

  datatype Finding = Finding(severity: string, category: string, file: string, line: Option<int>, evidence: string,
                             rationale: string)

  /** None stands for an array that is null. */
  datatype Verdict = Verdict(
    schemaVersion: int, decision: string, confidence: string, summary: string,
    findings: Option<seq<Finding>>, guidance: Option<seq<Guidance>>, notes: Option<seq<string>>)

  datatype Issue = Issue(path: string, index: Option<nat>, code: string)

  /** A finding the provider has to comment on, with the text it has to quote. */
  datatype Target = Target(findingId: string, anchorText: string)

  const SCHEMA_VERSION := 3
  const MAX_GUIDANCE := 12
  const MAX_GUIDANCE_TEXT := 2048

  const SEVERITIES := {"info", "low", "medium", "high", "critical"}
  const CATEGORIES :=
    {"archive_escape", "build_hook", "coverage", "credential_access", "decode_execute", "filesystem", "integrity",
     "network", "obfuscation", "package_metadata", "persistence", "process_injection", "prompt_injection",
     "privilege_escalation", "remote_execution", "other"}
  const ASSESSMENTS := {"likely-benign", "unclear", "concerning"}

  function Items<T>(a: Option<seq<T>>): seq<T> {
    if a.None? then [] else a.value
  }

  predicate IsHex(c: char) {
    '0' <= c <= '9' || 'a' <= c <= 'f'
  }

  predicate ValidHexDigest(s: string) {
    |s| == 64 && forall i :: 0 <= i < |s| ==> IsHex(s[i])
  }

  // ---------------------------------------------------------------- Verdict.Validate

  predicate ValidText(s: string, limit: nat) {
    s != "" && |s| <= limit
  }

  predicate ValidGuidance(g: Guidance) {
    ValidHexDigest(g.findingId) && g.assessment in ASSESSMENTS && ValidText(g.comment, 1000)
      && ValidText(g.anchorQuote, MAX_GUIDANCE_TEXT)
  }

  predicate ValidFinding(f: Finding) {
    && f.severity in SEVERITIES && f.category in CATEGORIES && ValidText(f.rationale, 2000)
    && |f.file| <= 4096 && |f.evidence| <= 1000 && (f.line.Some? ==> f.line.value >= 1)
  }

  predicate Fits<T>(a: Option<seq<T>>, limit: nat) {
    a.Some? && |a.value| <= limit
  }

  predicate ValidHeader(v: Verdict) {
    && v.schemaVersion == SCHEMA_VERSION && v.decision in {"allow", "block"}
    && v.confidence in {"low", "medium", "high"}
    && ValidText(v.summary, 2000) && Fits(v.findings, 200) && Fits(v.guidance, MAX_GUIDANCE) && Fits(v.notes, 100)
  }

  predicate DistinctIds(guidance: seq<Guidance>) {
    forall i, j :: 0 <= i < j < |guidance| ==> guidance[i].findingId != guidance[j].findingId
  }

  predicate AllGuidance(guidance: seq<Guidance>) {
    DistinctIds(guidance) && forall g :: g in guidance ==> ValidGuidance(g)
  }

  predicate AllFindings(findings: seq<Finding>) {
    forall f :: f in findings ==> ValidFinding(f)
  }

  predicate AllNotes(notes: seq<string>) {
    forall n :: n in notes ==> |n| <= 1000
  }

  predicate Valid(v: Verdict) {
    ValidHeader(v) && AllGuidance(Items(v.guidance)) && AllFindings(Items(v.findings)) && AllNotes(Items(v.notes))
  }

  function IdsOf(guidance: seq<Guidance>): set<string> {
    set g | g in guidance :: g.findingId
  }

  lemma GuidanceGrows(guidance: seq<Guidance>, i: nat)
    requires i < |guidance|
    ensures IdsOf(guidance[..i + 1]) == IdsOf(guidance[..i]) + {guidance[i].findingId}
    ensures DistinctIds(guidance[..i + 1]) <==>
              DistinctIds(guidance[..i]) && guidance[i].findingId !in IdsOf(guidance[..i])
    ensures AllGuidance(guidance[..i + 1]) <==>
            AllGuidance(guidance[..i]) && ValidGuidance(guidance[i]) && guidance[i].findingId !in IdsOf(guidance[..i])
  {
    hide ValidGuidance;
    var some, all, g := guidance[..i], guidance[..i + 1], guidance[i];
    assert all == some + [g];
    forall id | id in IdsOf(some) + {g.findingId} ensures id in IdsOf(all) {
      if id != g.findingId {
        var h :| h in some && h.findingId == id;
        assert h in all;
      } else {
        assert g in all;
      }
    }
    if g.findingId in IdsOf(some) {
      var h :| h in some && h.findingId == g.findingId;
      var j :| 0 <= j < i && some[j] == h;
      assert all[j].findingId == all[i].findingId;
    }
    if DistinctIds(some) && g.findingId !in IdsOf(some) {
      forall j, k | 0 <= j < k < |all| ensures all[j].findingId != all[k].findingId {
        if k == i {
          assert some[j] in some;
        } else {
          assert some[j].findingId != some[k].findingId;
        }
      }
    }
    if DistinctIds(all) {
      forall j, k | 0 <= j < k < |some| ensures some[j].findingId != some[k].findingId {
        assert all[j].findingId != all[k].findingId;
      }
    }
  }

  lemma {:induction false} GuidanceShrinks(guidance: seq<Guidance>, i: nat)
    requires i <= |guidance| && AllGuidance(guidance)
    ensures AllGuidance(guidance[..i])
    decreases |guidance| - i
  {
    hide ValidGuidance, DistinctIds;
    if i < |guidance| {
      GuidanceShrinks(guidance, i + 1);
      GuidanceGrows(guidance, i);
    } else {
      assert guidance[..i] == guidance;
    }
  }

  method Validate(v: Verdict) returns (ok: bool)
    ensures ok <==> Valid(v)
  {
    hide ValidGuidance, ValidFinding, ValidHeader, AllGuidance, DistinctIds;
    if !ValidHeader(v) {
      return false;
    }
    var guidance := Items(v.guidance);
    var seen: set<string> := {};
    assert AllGuidance(guidance[..0]) && IdsOf(guidance[..0]) == {} by { NoGuidance(); assert guidance[..0] == []; }
    for i := 0 to |guidance|
      invariant seen == IdsOf(guidance[..i]) && AllGuidance(guidance[..i])
    {
      GuidanceGrows(guidance, i);
      if !ValidGuidance(guidance[i]) || guidance[i].findingId in seen {
        if AllGuidance(guidance) {
          GuidanceShrinks(guidance, i + 1);
        }
        return false;
      }
      seen := seen + {guidance[i].findingId};
    }
    assert guidance[..|guidance|] == guidance;
    var findings := Items(v.findings);
    for i := 0 to |findings|
      invariant AllFindings(findings[..i])
    {
      if !ValidFinding(findings[i]) {
        assert findings[i] in findings;
        return false;
      }
    }
    assert findings[..|findings|] == findings;
    var notes := Items(v.notes);
    for i := 0 to |notes|
      invariant AllNotes(notes[..i])
    {
      if |notes[i]| > 1000 {
        assert notes[i] in notes;
        return false;
      }
    }
    assert notes[..|notes|] == notes;
    return true;
  }

  lemma NoGuidance()
    ensures AllGuidance([]) && IdsOf([]) == {}
  {
  }

  // ---------------------------------------------------------------- diagnosis of the shape

  function DiagnoseArray<T>(path: string, a: Option<seq<T>>, limit: nat): (issues: seq<Issue>)
    ensures issues == [] <==> Fits(a, limit)
  {
    (if a.None? then [Issue(path, None, "null_array")] else []) +
    (if |Items(a)| > limit then [Issue(path, None, "too_many_items")] else [])
  }

  function DiagnoseBoundedText(path: string, index: nat, value: string, limit: nat,
                               requireNonempty: bool): (issues: seq<Issue>)
    ensures issues == [] <==> |value| <= limit && (requireNonempty ==> value != "")
  {
    if requireNonempty && value == "" then [Issue(path, Some(index), "empty")]
    else if |value| <= limit then []
    else [Issue(path, Some(index), "too_long")]
  }

  function DiagnoseHeader(v: Verdict): (issues: seq<Issue>)
    ensures issues == [] <==> ValidHeader(v)
  {
    (if v.schemaVersion != SCHEMA_VERSION then [Issue("schema_version", None, "unexpected_value")] else []) +
    (if v.decision !in {"allow", "block"} then [Issue("verdict", None, "invalid_enum")] else []) +
    (if v.confidence !in {"low", "medium", "high"} then [Issue("confidence", None, "invalid_enum")] else []) +
    (if v.summary == "" then [Issue("summary", None, "empty")]
     else if |v.summary| > 2000 then [Issue("summary", None, "too_long")] else []) +
    DiagnoseArray("findings", v.findings, 200) + DiagnoseArray("guidance", v.guidance, MAX_GUIDANCE) +
      DiagnoseArray("coverage_notes", v.notes, 100)
  }

  function DiagnoseGuidance(g: Guidance, index: nat, seen: set<string>): (issues: seq<Issue>)
    ensures issues == [] <==> ValidGuidance(g) && g.findingId !in seen
  {
    (if !ValidHexDigest(g.findingId) then [Issue("guidance.finding_id", Some(index), "invalid_id")]
     else if g.findingId in seen then [Issue("guidance.finding_id", Some(index), "duplicate_id")] else []) +
    (if g.assessment !in ASSESSMENTS then [Issue("guidance.assessment", Some(index), "invalid_enum")] else []) +
    DiagnoseBoundedText("guidance.comment", index, g.comment, 1000, true) +
    DiagnoseBoundedText("guidance.anchor_quote", index, g.anchorQuote, MAX_GUIDANCE_TEXT, true)
  }

  function DiagnoseFinding(f: Finding, index: nat): (issues: seq<Issue>)
    ensures issues == [] <==> ValidFinding(f)
  {
    (if f.severity !in SEVERITIES then [Issue("findings.severity", Some(index), "invalid_enum")] else []) +
    (if f.category !in CATEGORIES then [Issue("findings.category", Some(index), "invalid_enum")] else []) +
    (if f.rationale == "" then [Issue("findings.rationale", Some(index), "empty")] else []) +
    DiagnoseBoundedText("findings.file", index, f.file, 4096, false) +
    DiagnoseBoundedText("findings.evidence", index, f.evidence, 1000, false) +
    DiagnoseBoundedText("findings.rationale", index, f.rationale, 2000, false) +
    (if f.line.Some? && f.line.value < 1 then [Issue("findings.line", Some(index), "below_minimum")] else [])
  }

  /** The diagnosis finds nothing to report exactly when validation succeeds. */
  method DiagnoseVerdictShape(v: Verdict) returns (issues: seq<Issue>)
    ensures issues == [] <==> Valid(v)
  {
    hide ValidGuidance, ValidFinding, ValidHeader, AllGuidance, DistinctIds, DiagnoseHeader, DiagnoseGuidance,
         DiagnoseFinding;
    issues := DiagnoseHeader(v);
    var guidance := Items(v.guidance);
    var seen: set<string> := {};
    assert AllGuidance(guidance[..0]) && IdsOf(guidance[..0]) == {} by { NoGuidance(); assert guidance[..0] == []; }
    for i := 0 to |guidance|
      invariant seen == IdsOf(guidance[..i])
      invariant issues == [] <==> ValidHeader(v) && AllGuidance(guidance[..i])
    {
      GuidanceGrows(guidance, i);
      issues := issues + DiagnoseGuidance(guidance[i], i, seen);
      seen := seen + {guidance[i].findingId};
    }
    assert guidance[..|guidance|] == guidance;
    var findings := Items(v.findings);
    for i := 0 to |findings|
      invariant issues == [] <==> ValidHeader(v) && AllGuidance(guidance) && AllFindings(findings[..i])
    {
      assert findings[..i + 1] == findings[..i] + [findings[i]];
      issues := issues + DiagnoseFinding(findings[i], i);
    }
    assert findings[..|findings|] == findings;
    var notes := Items(v.notes);
    for i := 0 to |notes|
      invariant issues == [] <==>
                  ValidHeader(v) && AllGuidance(guidance) && AllFindings(findings) && AllNotes(notes[..i])
    {
      assert notes[..i + 1] == notes[..i] + [notes[i]];
      issues := issues + DiagnoseBoundedText("coverage_notes", i, notes[i], 1000, false);
    }
    assert notes[..|notes|] == notes;
  }

  // ---------------------------------------------------------------- diagnosis of the bindings

  function TargetIds(targets: seq<Target>): set<string> {
    set t | t in targets :: t.findingId
  }

  predicate Expects(targets: seq<Target>, id: string, anchor: string) {
    Target(id, anchor) in targets
  }

  predicate DistinctTargets(targets: seq<Target>) {
    forall i, j :: 0 <= i < j < |targets| ==> targets[i].findingId != targets[j].findingId
  }

  ghost predicate AnchorsOf(targets: seq<Target>, anchors: map<string, string>) {
    && (forall t :: t in targets ==> t.findingId in anchors && anchors[t.findingId] == t.anchorText)
    && anchors.Keys == TargetIds(targets)
  }

  /** Every comment quotes the anchor of a target, every target has a comment, and
      every finding is about a known file. */
  predicate BoundTo(guidance: seq<Guidance>, targets: seq<Target>) {
    && (forall g :: g in guidance ==> Expects(targets, g.findingId, g.anchorQuote))
    && IdsOf(guidance) == TargetIds(targets)
  }

  predicate KnownFiles(findings: seq<Finding>, files: set<string>) {
    forall f :: f in findings ==> f.file in files
  }

  method Anchors(targets: seq<Target>) returns (anchors: map<string, string>)
    requires DistinctTargets(targets)
    ensures AnchorsOf(targets, anchors)
  {
    anchors := map[];
    for i := 0 to |targets|
      invariant AnchorsOf(targets[..i], anchors)
    {
      var t := targets[i];
      assert targets[..i + 1] == targets[..i] + [t];
      forall u | u in targets[..i] ensures u.findingId != t.findingId {
        var j :| 0 <= j < i && targets[j] == u;
      }
      assert t in targets[..i + 1];
      forall id | id in TargetIds(targets[..i]) ensures id in TargetIds(targets[..i + 1]) {
        var u :| u in targets[..i] && u.findingId == id;
        assert u in targets[..i + 1];
      }
      anchors := anchors[t.findingId := t.anchorText];
    }
    assert targets[..|targets|] == targets;
  }

  lemma AnchorIs(targets: seq<Target>, anchors: map<string, string>, id: string, anchor: string)
    requires AnchorsOf(targets, anchors)
    ensures Expects(targets, id, anchor) <==> id in anchors && anchors[id] == anchor
  {
    if id in anchors && anchors[id] == anchor {
      var t :| t in targets && t.findingId == id;
      assert t == Target(id, anchor);
    }
  }

  method DiagnoseGuidanceBindings(guidance: seq<Guidance>, targets: seq<Target>) returns (issues: seq<Issue>)
    requires DistinctTargets(targets)
    ensures issues == [] <==> BoundTo(guidance, targets)
  {
    hide AnchorsOf, Expects, DistinctTargets, AllGuidance, DistinctIds, ValidGuidance, TargetIds;
    issues := [];
    var anchors := Anchors(targets);
    assert anchors.Keys == TargetIds(targets) by { AnchorKeys(targets, anchors); }
    if |anchors| == 0 && |guidance| != 0 {
      issues := issues + [Issue("guidance", None, "unexpected_items")];
      assert guidance[0].findingId !in anchors && guidance[0] in guidance;
      AnchorIs(targets, anchors, guidance[0].findingId, guidance[0].anchorQuote);
    }
    var seen: set<string> := {};
    for i := 0 to |guidance|
      invariant issues == [] ==> seen == IdsOf(guidance[..i])
      invariant seen <= anchors.Keys
      invariant issues == [] ==> forall g :: g in guidance[..i] ==> Expects(targets, g.findingId, g.anchorQuote)
      invariant issues != [] ==> !BoundTo(guidance, targets)
    {
      var g := guidance[i];
      assert g in guidance;
      AnchorIs(targets, anchors, g.findingId, g.anchorQuote);
      GuidanceGrows(guidance, i);
      assert guidance[..i + 1] == guidance[..i] + [g];
      if g.findingId !in anchors {
        issues := issues + [Issue("guidance.finding_id", Some(i), "unknown_id")];
        continue;
      }
      seen := seen + {g.findingId};
      if g.anchorQuote != anchors[g.findingId] {
        issues := issues + [Issue("guidance.anchor_quote", Some(i), "anchor_mismatch")];
      }
    }
    assert guidance[..|guidance|] == guidance;
    SameSize(seen, anchors.Keys);
    assert |anchors| == |anchors.Keys|;
    if |seen| != |anchors| {
      issues := issues + [Issue("guidance", None, "missing_targets")];
    }
  }

  /** The diagnosis of the bindings is empty exactly when the verdict is bound to
      the targets and files of the snapshot. */
  method DiagnoseVerdictBindings(v: Verdict, targets: seq<Target>, files: set<string>) returns (issues: seq<Issue>)
    requires DistinctTargets(targets)
    ensures issues == [] <==> BoundTo(Items(v.guidance), targets) && KnownFiles(Items(v.findings), files + {"<none>"})
  {
    hide BoundTo, DistinctTargets;
    issues := DiagnoseGuidanceBindings(Items(v.guidance), targets);
    var allowed, findings := files + {"<none>"}, Items(v.findings);
    for i := 0 to |findings|
      invariant issues == [] <==> BoundTo(Items(v.guidance), targets) && KnownFiles(findings[..i], allowed)
    {
      assert findings[..i + 1] == findings[..i] + [findings[i]];
      if findings[i].file !in allowed {
        issues := issues + [Issue("findings.file", Some(i), "unknown_file")];
      }
    }
    assert findings[..|findings|] == findings;
  }

  lemma AnchorKeys(targets: seq<Target>, anchors: map<string, string>)
    requires AnchorsOf(targets, anchors)
    ensures anchors.Keys == TargetIds(targets)
  {
  }

  /** Of two sets, one within the other, equal sizes mean equal sets. */
  lemma {:induction false} SameSize<T>(a: set<T>, b: set<T>)
    requires a <= b
    ensures |a| <= |b| && (|a| == |b| <==> a == b)
  {
    if a == {} {
      assert b == {} <==> |b| == 0;
    } else {
      var x :| x in a;
      SameSize(a - {x}, b - {x});
    }
  }

  // ---------------------------------------------------------------- the review loop

  /** What the review loop does with the verdict on one batch: None is an error.
      Comments with a wrong quotation are dropped. */
  method AcceptVerdict(v: Verdict, targets: seq<Target>, paths: set<string>) returns (kept: Option<seq<Guidance>>)
    requires DistinctTargets(targets)
    ensures kept.Some? <==>
              KnownFiles(Items(v.findings), paths + {"<none>"}) && IdsOf(Items(v.guidance)) == TargetIds(targets)
    ensures kept.Some? ==> kept.value == Quoting(Items(v.guidance), targets)
  {
    hide AnchorsOf, Expects;
    var anchors := Anchors(targets);
    assert anchors.Keys == TargetIds(targets) by { AnchorKeys(targets, anchors); }
    var findings, guidance := Items(v.findings), Items(v.guidance);
    for i := 0 to |findings|
      invariant KnownFiles(findings[..i], paths + {"<none>"})
    {
      assert findings[..i + 1] == findings[..i] + [findings[i]];
      if findings[i].file !in paths + {"<none>"} {
        assert findings[i] in findings;
        return None;
      }
    }
    assert findings[..|findings|] == findings;
    var seen: set<string> := {};
    for i := 0 to |guidance|
      invariant seen == IdsOf(guidance[..i]) && seen <= anchors.Keys
    {
      GuidanceGrows(guidance, i);
      if guidance[i].findingId !in anchors {
        assert guidance[i] in guidance;
        return None;
      }
      seen := seen + {guidance[i].findingId};
    }
    assert guidance[..|guidance|] == guidance;
    if !(anchors.Keys <= seen) {
      return None;
    }
    var filtered: seq<Guidance> := [];
    for i := 0 to |guidance|
      invariant filtered == Quoting(guidance[..i], targets)
    {
      var g := guidance[i];
      assert guidance[..i + 1][..i] == guidance[..i];
      assert g in guidance && g.findingId in IdsOf(guidance);
      AnchorIs(targets, anchors, g.findingId, g.anchorQuote);
      if g.anchorQuote == anchors[g.findingId] {
        filtered := filtered + [g];
      }
    }
    assert guidance[..|guidance|] == guidance;
    return Some(filtered);
  }

  function Quoting(guidance: seq<Guidance>, targets: seq<Target>): seq<Guidance> {
    if guidance == [] then []
    else
      var some, last := Quoting(guidance[..|guidance| - 1], targets), guidance[|guidance| - 1];
      if Expects(targets, last.findingId, last.anchorQuote) then some + [last] else some
  }

  /** No comment of a bound verdict is dropped. */
  lemma {:induction false} BoundVerdictIsKeptWhole(guidance: seq<Guidance>, targets: seq<Target>)
    requires forall g :: g in guidance ==> Expects(targets, g.findingId, g.anchorQuote)
    ensures Quoting(guidance, targets) == guidance
  {
    if guidance != [] {
      BoundVerdictIsKeptWhole(guidance[..|guidance| - 1], targets);
      assert guidance[|guidance| - 1] in guidance;
      assert guidance == guidance[..|guidance| - 1] + [guidance[|guidance| - 1]];
    }
  }

  /** The comments that remain are comments on targets, with their anchors. */
  lemma {:induction false} KeptIsBound(guidance: seq<Guidance>, targets: seq<Target>)
    ensures forall g :: g in Quoting(guidance, targets) <==>
              g in guidance && Expects(targets, g.findingId, g.anchorQuote)
  {
    if guidance != [] {
      KeptIsBound(guidance[..|guidance| - 1], targets);
      assert guidance == guidance[..|guidance| - 1] + [guidance[|guidance| - 1]];
    }
  }

  /** The whole diagnosis; what passes it is what validation and the bindings ask. */
  method DiagnoseVerdict(v: Verdict, targets: seq<Target>, files: set<string>)
    returns (passed: bool, issues: seq<Issue>)
    requires DistinctTargets(targets)
    ensures passed <==> issues == []
    ensures passed <==> Passes(v, targets, files)
  {
    hide Valid, Expects, DistinctTargets;
    var shape := DiagnoseVerdictShape(v);
    var bindings := DiagnoseVerdictBindings(v, targets, files);
    issues := shape + bindings;
    passed := issues == [];
  }

  predicate Passes(v: Verdict, targets: seq<Target>, files: set<string>) {
    Valid(v) && BoundTo(Items(v.guidance), targets) && KnownFiles(Items(v.findings), files + {"<none>"})
  }

  /** When the diagnosis passes, the review loop accepts the verdict (the condition
      of AcceptVerdict) and its filter removes nothing. */
  lemma PassingVerdictIsAcceptedWhole(v: Verdict, targets: seq<Target>, files: set<string>, paths: set<string>)
    requires Passes(v, targets, files) && files <= paths + {"<none>"}
    ensures KnownFiles(Items(v.findings), paths + {"<none>"}) && IdsOf(Items(v.guidance)) == TargetIds(targets)
    ensures Quoting(Items(v.guidance), targets) == Items(v.guidance)
  {
    hide Valid, Expects;
    BoundVerdictIsKeptWhole(Items(v.guidance), targets);
  }

  // ---------------------------------------------------------------- the bound schema

  /** What the bound schema says of the guidance array: this many items, with IDs
      from this list. */
  datatype Schema = Schema(items: nat, ids: seq<string>)

  predicate Obeys(guidance: seq<Guidance>, s: Schema) {
    |guidance| == s.items && forall g :: g in guidance ==> g.findingId in s.ids
  }

  method BindSchema(targets: seq<Target>) returns (schema: Option<Schema>)
    ensures schema.Some? <==> DistinctTargets(targets) && forall t :: t in targets ==> ValidHexDigest(t.findingId)
    ensures schema.Some? ==> schema.value.items == |targets| && |schema.value.ids| == |targets|
    ensures schema.Some? ==> forall i :: 0 <= i < |targets| ==> schema.value.ids[i] == targets[i].findingId
  {
    hide ValidHexDigest;
    var ids: seq<string> := [];
    var seen: set<string> := {};
    for i := 0 to |targets|
      invariant |ids| == i && forall j :: 0 <= j < i ==> ids[j] == targets[j].findingId
      invariant forall id :: id in seen <==> exists j :: 0 <= j < i && targets[j].findingId == id
      invariant forall j, k :: 0 <= j < k < i ==> targets[j].findingId != targets[k].findingId
      invariant forall j :: 0 <= j < i ==> ValidHexDigest(targets[j].findingId)
    {
      var id := targets[i].findingId;
      if !ValidHexDigest(id) || id in seen {
        assert targets[i] in targets;
        return None;
      }
      seen := seen + {id};
      ids := ids + [id];
    }
    return Some(Schema(|targets|, ids));
  }

  /** With an answer that obeys the bound schema, the uniqueness that validation asks
      for leaves no room: every target has its comment. */
  lemma SchemaForcesCoverage(v: Verdict, targets: seq<Target>, s: Schema)
    requires Valid(v) && DistinctTargets(targets) && Obeys(Items(v.guidance), s)
    requires s.items == |targets| == |s.ids| && forall i :: 0 <= i < |targets| ==> s.ids[i] == targets[i].findingId
    ensures IdsOf(Items(v.guidance)) == TargetIds(targets)
  {
    hide ValidGuidance, AllFindings, AllNotes, ValidHeader;
    var guidance := Items(v.guidance);
    forall id | id in IdsOf(guidance) ensures id in TargetIds(targets) {
      var g :| g in guidance && g.findingId == id;
      var i :| 0 <= i < |s.ids| && s.ids[i] == id;
      assert targets[i] in targets;
    }
    DistinctCount(guidance);
    TargetCount(targets);
    SameSize(IdsOf(guidance), TargetIds(targets));
  }

  lemma {:induction false} DistinctCount(guidance: seq<Guidance>)
    requires DistinctIds(guidance)
    ensures |IdsOf(guidance)| == |guidance|
  {
    if guidance == [] {
      assert IdsOf(guidance) == {};
    } else {
      var n := |guidance| - 1;
      GuidanceGrows(guidance, n);
      assert guidance[..n + 1] == guidance;
      DistinctCount(guidance[..n]);
    }
  }

  lemma {:induction false} TargetCount(targets: seq<Target>)
    ensures |TargetIds(targets)| <= |targets|
  {
    if targets == [] {
      assert TargetIds(targets) == {};
    } else {
      var some, last := targets[..|targets| - 1], targets[|targets| - 1];
      TargetCount(some);
      assert targets == some + [last];
      assert TargetIds(targets) <= TargetIds(some) + {last.findingId};
      SameSize(TargetIds(targets), TargetIds(some) + {last.findingId});
    }
  }

  // ---------------------------------------------------------------- the rules field by field

  /** Lower-case hexadecimal, 64 digits. */
  predicate Digest(s: string) {
    |s| == 64 && forall c :: c in s ==> c in "0123456789abcdef"
  }

  predicate Between(s: string, low: nat, high: nat) {
    low <= |s| <= high
  }

  predicate EachOnce(guidance: seq<Guidance>) {
    forall i, j :: 0 <= i < |guidance| && 0 <= j < |guidance| ==>
      guidance[i].findingId == guidance[j].findingId ==> i == j
  }

  /** A valid verdict, with every bound and every word that is allowed. */
  lemma ValidExactly(v: Verdict)
    ensures Valid(v) <==>
            && v.schemaVersion == 3 && v.decision in ["allow", "block"] && v.confidence in ["low", "medium", "high"]
            && Between(v.summary, 1, 2000) && v.findings.Some? && v.guidance.Some? && v.notes.Some?
            && |v.findings.value| <= 200 && |v.guidance.value| <= 12 && |v.notes.value| <= 100
            && EachOnce(v.guidance.value)
            && (forall g :: g in v.guidance.value ==>
                  && Digest(g.findingId) && g.assessment in ["likely-benign", "unclear", "concerning"]
                  && Between(g.comment, 1, 1000) && Between(g.anchorQuote, 1, 2048))
            && (forall f :: f in v.findings.value ==>
                  && f.severity in ["info", "low", "medium", "high", "critical"]
                  && f.category in ["archive_escape", "build_hook", "coverage", "credential_access", "decode_execute",
                                    "filesystem", "integrity", "network", "obfuscation", "package_metadata",
                                    "persistence", "process_injection", "prompt_injection", "privilege_escalation",
                                    "remote_execution", "other"]
                  && Between(f.rationale, 1, 2000) && Between(f.file, 0, 4096) && Between(f.evidence, 0, 1000)
                  && (f.line.Some? ==> f.line.value >= 1))
            && (forall n :: n in v.notes.value ==> Between(n, 0, 1000))
  {
    hide Digest, ValidHexDigest;
    forall s: string ensures ValidHexDigest(s) <==> Digest(s) {
      DigestExactly(s);
    }
    if v.guidance.Some? {
      DistinctExactly(v.guidance.value);
    }
  }

  lemma DistinctExactly(guidance: seq<Guidance>)
    ensures DistinctIds(guidance) <==> EachOnce(guidance)
  {
  }

  lemma DigestExactly(s: string)
    ensures ValidHexDigest(s) <==> Digest(s)
  {
    var digits := "0123456789abcdef";
    forall c ensures IsHex(c) <==> c in digits {
      if '0' <= c <= '9' {
        assert digits[c as int - '0' as int] == c;
      } else if 'a' <= c <= 'f' {
        assert digits[10 + c as int - 'a' as int] == c;
      }
    }
    if ValidHexDigest(s) {
      forall c | c in s ensures c in digits {
        var i :| 0 <= i < |s| && s[i] == c;
        assert IsHex(s[i]);
      }
    }
  }
}
