/** Decisions about one scan: internal/audit/policy.go (assessment, carry-over,
    evaluation, live markers) and the cross-field part of Report.Validate in
    internal/audit/reports.go.

    Hashes, manifest decoding and the order of findings in a report are
    parameters; so are the outcome of the provider's review and of spending a
    token. */
module DecisionPolicy {
  import opened Text

  datatype Phase = Pre | Post | Artifact

  datatype Source = Deterministic | Ai

  datatype Finding = Finding(
    source: Source, severity: string, category: string, file: string, line: Option<int>,
    evidence: string, rationale: string, ruleId: string, hardBlock: bool)

  /** `guidance` lists the finding each comment names. */
  datatype Verdict = Verdict(
    allows: bool, confidence: string, promptInjection: bool, findings: seq<ReviewFinding>,
    guidance: seq<string>, coverageNotes: seq<string>)

  datatype ReviewFinding = ReviewFinding(
    severity: string, category: string, file: string, line: Option<int>, evidence: string, rationale: string)

  /** A manifest record; `rest` stands for every field but the path. */
  datatype Record = Record(path: string, rest: string)

  datatype Inventory = Inventory(
    findings: seq<Finding>, complete: bool, manifest: seq<Record>, manifestHash: string)

  datatype Binding = Binding(findingId: string, path: string, entryHash: string)

  datatype Carried = Carried(sourceId: string, sourcePhase: Phase, sourceHash: string, bindings: seq<Binding>)

  datatype Disposition = Allowed | Blocked | Override

  /** `unavailable`: the provider fields say that no provider answered. */
  datatype Reviewer = Reviewer(ai: bool, unavailable: bool, error: string, onDemand: bool, verdicts: seq<Verdict>)

  datatype Report = Report(
    id: string, transaction: string, packageBase: string, phase: Phase, allows: bool, disposition: Disposition,
    contentHash: string, fingerprint: string, reviewer: Reviewer, complete: bool, manifest: seq<Record>,
    findings: seq<Finding>, overridden: bool, approvalEligible: bool, networkEligible: bool, carried: Option<Carried>)

  /** `names(id, hash)`: the report ID carries the first digits of the hash. */
  datatype Oracles = Oracles(
    findingId: Finding -> string, entryHash: Record -> string, contentHash: seq<Record> -> string,
    validRecord: Record -> bool, names: (string, string) -> bool, arrange: seq<Finding> -> seq<Finding>)

  /** Hashing separates findings, a digest is never empty and sorting permutes. */
  ghost predicate Sound(o: Oracles) {
    && (forall f: Finding, g: Finding :: o.findingId(f) == o.findingId(g) ==> f == g)
    && (forall r: Record :: o.entryHash(r) != "")
    && (forall s: seq<Finding> :: multiset(o.arrange(s)) == multiset(s))
  }

  // ---------------------------------------------------------------- severity and structure

  function Rank(severity: string): nat {
    match severity
    case "info" => 1
    case "low" => 2
    case "medium" => 3
    case "high" => 4
    case "critical" => 5
    case _ => 0
  }

  predicate AtLeast(actual: string, minimum: string) {
    Rank(actual) >= Rank(minimum) && Rank(minimum) != 0
  }

  function ConfidenceRank(confidence: string): nat {
    match confidence
    case "low" => 1
    case "medium" => 2
    case "high" => 3
    case _ => 0
  }

  predicate ConfidenceAtLeast(actual: string, minimum: string) {
    ConfidenceRank(actual) >= ConfidenceRank(minimum) && ConfidenceRank(minimum) != 0
  }

  const STRUCTURAL_RULES :=
    {"special-file", "symlink-escape", "source-reference-escape", "binary-header-invalid", "archive-depth-limit"}

  predicate Escapes(category: string, rationale: string) {
    category == "archive_escape" || HasPrefix(rationale, "TOCTOU")
  }

  predicate Structural(f: Finding) {
    f.hardBlock || f.ruleId in STRUCTURAL_RULES || Escapes(f.category, f.rationale)
  }

  predicate StructuralBlock(findings: seq<Finding>, complete: bool) {
    !complete || exists f :: f in findings && Structural(f)
  }

  predicate PromptInjection(verdicts: seq<Verdict>) {
    exists v :: v in verdicts && v.promptInjection
  }

  // ---------------------------------------------------------------- deterministic assessment

  datatype Assessment = Assessment(allows: bool, approvalEligible: bool, hardBlock: bool, decisionBlock: bool,
                                   structuralBlock: bool)

  predicate HardBlock(findings: seq<Finding>) {
    exists f :: f in findings && f.hardBlock
  }

  /** Some finding at the threshold was not decided at an earlier phase. */
  predicate DecisionBlock(o: Oracles, findings: seq<Finding>, minimum: string, carried: set<string>) {
    exists f :: f in findings && AtLeast(f.severity, minimum) && o.findingId(f) !in carried
  }

  predicate DeterministicAllow(o: Oracles, inv: Inventory, minimum: string, carried: set<string>) {
    Rank(minimum) != 0 && inv.complete && !HardBlock(inv.findings) && !DecisionBlock(o, inv.findings, minimum, carried)
  }

  method AssessDeterministicAt(o: Oracles, inv: Inventory, minimum: string, carried: set<string>)
    returns (a: Assessment)
    ensures a.allows <==> DeterministicAllow(o, inv, minimum, carried)
    ensures a.structuralBlock <==> StructuralBlock(inv.findings, inv.complete)
    ensures a.hardBlock <==> Rank(minimum) != 0 && HardBlock(inv.findings)
    ensures a.decisionBlock <==> Rank(minimum) != 0 && DecisionBlock(o, inv.findings, minimum, carried)
    ensures a.approvalEligible <==> Rank(minimum) != 0 && !a.allows && !a.structuralBlock && inv.manifestHash != ""
  {
    var structural := FindStructuralBlock(inv.findings, inv.complete);
    a := Assessment(false, false, false, false, structural);
    if Rank(minimum) == 0 {
      return;
    }
    for i := 0 to |inv.findings|
      invariant a.structuralBlock == structural && !a.allows && !a.approvalEligible
      invariant a.hardBlock <==> HardBlock(inv.findings[..i])
      invariant a.decisionBlock <==> DecisionBlock(o, inv.findings[..i], minimum, carried)
    {
      var finding := inv.findings[i];
      assert inv.findings[..i + 1] == inv.findings[..i] + [finding];
      a := a.(hardBlock := a.hardBlock || finding.hardBlock);
      if o.findingId(finding) !in carried {
        a := a.(decisionBlock := a.decisionBlock || AtLeast(finding.severity, minimum));
      }
    }
    assert inv.findings[..|inv.findings|] == inv.findings;
    if inv.complete && !a.hardBlock && !a.decisionBlock {
      a := a.(allows := true);
    }
    a := a.(approvalEligible := !a.allows && inv.manifestHash != "" && !a.structuralBlock);
  }

  method FindStructuralBlock(findings: seq<Finding>, complete: bool) returns (block: bool)
    ensures block <==> StructuralBlock(findings, complete)
  {
    if !complete {
      return true;
    }
    for i := 0 to |findings|
      invariant forall f :: f in findings[..i] ==> !Structural(f)
    {
      if Structural(findings[i]) {
        return true;
      }
    }
    return false;
  }

  // ---------------------------------------------------------------- manifests

  predicate ValidManifest(o: Oracles, manifest: seq<Record>) {
    && (forall r :: r in manifest ==> o.validRecord(r))
    && (forall i, j :: 0 <= i < j < |manifest| ==> manifest[i].path != manifest[j].path)
  }

  /** `hash` is the hash of the entry for `path`. */
  predicate EntryIs(o: Oracles, manifest: seq<Record>, path: string, hash: string) {
    exists r :: r in manifest && r.path == path && o.entryHash(r) == hash
  }

  ghost predicate HashesAre(o: Oracles, manifest: seq<Record>, hashes: map<string, string>) {
    && (forall r :: r in manifest ==> r.path in hashes && hashes[r.path] == o.entryHash(r))
    && (forall path :: path in hashes ==> EntryIs(o, manifest, path, hashes[path]))
  }

  method ManifestEntryHashes(o: Oracles, manifest: seq<Record>) returns (hashes: Option<map<string, string>>)
    ensures hashes.Some? <==> ValidManifest(o, manifest)
    ensures hashes.Some? ==> HashesAre(o, manifest, hashes.value)
  {
    var result: map<string, string> := map[];
    for i := 0 to |manifest|
      invariant ValidManifest(o, manifest[..i]) && HashesAre(o, manifest[..i], result)
    {
      var record := manifest[i];
      assert manifest[..i + 1] == manifest[..i] + [record];
      if !o.validRecord(record) {
        assert record in manifest;
        return None;
      }
      if record.path in result {
        assert EntryIs(o, manifest[..i], record.path, result[record.path]);
        return None;
      }
      ghost var before := result;
      result := result[record.path := o.entryHash(record)];
      HashesGrow(o, manifest, i, before);
    }
    assert manifest[..|manifest|] == manifest;
    return Some(result);
  }

  lemma HashesGrow(o: Oracles, manifest: seq<Record>, i: nat, hashes: map<string, string>)
    requires i < |manifest| && HashesAre(o, manifest[..i], hashes) && manifest[i].path !in hashes
    requires ValidManifest(o, manifest[..i]) && o.validRecord(manifest[i])
    ensures HashesAre(o, manifest[..i + 1], hashes[manifest[i].path := o.entryHash(manifest[i])])
    ensures ValidManifest(o, manifest[..i + 1])
  {
    var grown := hashes[manifest[i].path := o.entryHash(manifest[i])];
    assert manifest[..i + 1] == manifest[..i] + [manifest[i]];
    forall path | path in grown ensures EntryIs(o, manifest[..i + 1], path, grown[path]) {
      if path == manifest[i].path {
        assert manifest[i] in manifest[..i + 1];
      } else {
        assert EntryIs(o, manifest[..i], path, hashes[path]);
      }
    }
    var all, some := manifest[..i + 1], manifest[..i];
    forall j, k | 0 <= j < k < |all| ensures all[j].path != all[k].path {
      if k == i {
        assert some[j] in some;
      } else {
        assert some[j].path != some[k].path;
      }
    }
  }

  lemma EntryIsUnique(o: Oracles, manifest: seq<Record>, path: string, a: string, b: string)
    requires ValidManifest(o, manifest) && EntryIs(o, manifest, path, a) && EntryIs(o, manifest, path, b)
    ensures a == b
  {
    var r :| r in manifest && r.path == path && o.entryHash(r) == a;
    var s :| s in manifest && s.path == path && o.entryHash(s) == b;
    var i :| 0 <= i < |manifest| && manifest[i] == r;
    var j :| 0 <= j < |manifest| && manifest[j] == s;
  }

  // ---------------------------------------------------------------- carry-over

  predicate CarryEligible(f: Finding, minimum: string) {
    f.source.Deterministic? && AtLeast(f.severity, minimum) && !f.hardBlock && f.category != "coverage"
  }

  /** An earlier report that may settle a question at the next phase. */
  predicate CanCarry(source: Report, packageBase: string) {
    && source.packageBase == packageBase && source.phase.Pre?
    && source.allows && source.disposition.Override? && source.overridden && source.complete
    && !StructuralBlock(source.findings, source.complete) && !PromptInjection(source.reviewer.verdicts)
  }

  /** `f` was put to the user in `source`, on the same bytes. */
  predicate Settled(o: Oracles, f: Finding, source: Report, manifest: seq<Record>, minimum: string) {
    && CarryEligible(f, minimum) && f in source.findings
    && exists r :: r in manifest && r.path == f.file && EntryIs(o, source.manifest, f.file, o.entryHash(r))
  }

  function IdsOf(bindings: seq<Binding>): set<string> {
    set b | b in bindings :: b.findingId
  }

  function CarriedIds(carried: Option<Carried>): set<string> {
    if carried.None? then {} else IdsOf(carried.value.bindings)
  }

  /** What Report.Validate asks of each carried finding. */
  predicate Bound(o: Oracles, b: Binding, findings: seq<Finding>, manifest: seq<Record>) {
    && EntryIs(o, manifest, b.path, b.entryHash)
    && exists f :: f in findings && f.source.Deterministic? && o.findingId(f) == b.findingId && f.file == b.path
                   && !f.hardBlock && f.category != "coverage"
  }

  predicate DistinctIds(bindings: seq<Binding>) {
    forall i, j :: 0 <= i < j < |bindings| ==> bindings[i].findingId != bindings[j].findingId
  }

  ghost predicate WellBound(o: Oracles, bindings: seq<Binding>, findings: seq<Finding>, manifest: seq<Record>) {
    DistinctIds(bindings) && forall b :: b in bindings ==> Bound(o, b, findings, manifest)
  }

  /** The carried findings are exactly those of the inventory that the source
      settled, each once and bound to its manifest entry. */
  ghost predicate CarriesSettled(o: Oracles, carried: Option<Carried>, live: Option<Report>, packageBase: string,
                                 inv: Inventory, minimum: string) {
    && (forall f :: f in inv.findings ==>
          (o.findingId(f) in CarriedIds(carried) <==>
           live.Some? && CanCarry(live.value, packageBase)
           && ValidManifest(o, live.value.manifest) && ValidManifest(o, inv.manifest)
           && Settled(o, f, live.value, inv.manifest, minimum)))
    && (carried.Some? ==>
          && live.Some? && CanCarry(live.value, packageBase)
          && carried.value.sourceId == live.value.id && carried.value.sourcePhase == live.value.phase
          && carried.value.sourceHash == live.value.contentHash
          && carried.value.bindings != [] && WellBound(o, carried.value.bindings, inv.findings, inv.manifest))
  }

  method CarriedDecision(o: Oracles, live: Option<Report>, packageBase: string, inv: Inventory, minimum: string)
    returns (carried: Option<Carried>)
    requires Sound(o)
    ensures CarriesSettled(o, carried, live, packageBase, inv, minimum)
  {
    if live.None? || !CanCarry(live.value, packageBase) {
      return None;
    }
    var source := live.value;
    var before := ManifestEntryHashes(o, source.manifest);
    if before.None? {
      return None;
    }
    var after := ManifestEntryHashes(o, inv.manifest);
    if after.None? {
      return None;
    }
    var approved := ApprovedFindings(o, source.findings, minimum);
    var bindings: seq<Binding> := [];
    var seen: set<string> := {};
    for i := 0 to |inv.findings|
      invariant seen == IdsOf(bindings) && WellBound(o, bindings, inv.findings, inv.manifest)
      invariant forall f :: f in inv.findings[..i] && Settled(o, f, source, inv.manifest, minimum) ==>
                  o.findingId(f) in seen
      invariant forall f :: f in inv.findings && o.findingId(f) in seen ==> Settled(o, f, source, inv.manifest, minimum)
    {
      var finding := inv.findings[i];
      assert inv.findings[..i + 1] == inv.findings[..i] + [finding];
      var id := o.findingId(finding);
      if CarryEligible(finding, minimum) && id !in seen && id in approved && approved[id].file == finding.file
         && finding.file in before.value && finding.file in after.value
         && before.value[finding.file] == after.value[finding.file] {
        var binding := Binding(id, finding.file, after.value[finding.file]);
        SettledHere(o, finding, source, inv.manifest, minimum, before.value, after.value);
        OneMore(o, bindings, binding, inv.findings, inv.manifest, finding);
        seen := seen + {id};
        bindings := bindings + [binding];
      } else if Settled(o, finding, source, inv.manifest, minimum) {
        SettledMeans(o, finding, source, inv.manifest, minimum, before.value, after.value);
      }
    }
    assert inv.findings[..|inv.findings|] == inv.findings;
    if bindings == [] {
      return None;
    }
    return Some(Carried(source.id, source.phase, source.contentHash, bindings));
  }

  method ApprovedFindings(o: Oracles, findings: seq<Finding>, minimum: string) returns (approved: map<string, Finding>)
    requires Sound(o)
    ensures forall f :: f in findings && CarryEligible(f, minimum) ==> o.findingId(f) in approved
    ensures forall id :: id in approved ==> approved[id] in findings && o.findingId(approved[id]) == id
  {
    approved := map[];
    for i := 0 to |findings|
      invariant forall f :: f in findings[..i] && CarryEligible(f, minimum) ==> o.findingId(f) in approved
      invariant forall id :: id in approved ==> approved[id] in findings && o.findingId(approved[id]) == id
    {
      if CarryEligible(findings[i], minimum) {
        approved := approved[o.findingId(findings[i]) := findings[i]];
      }
    }
  }

  lemma SettledHere(o: Oracles, f: Finding, source: Report, manifest: seq<Record>, minimum: string,
                    before: map<string, string>, after: map<string, string>)
    requires HashesAre(o, source.manifest, before) && HashesAre(o, manifest, after)
    requires CarryEligible(f, minimum) && f in source.findings
    requires f.file in before && f.file in after && before[f.file] == after[f.file]
    ensures Settled(o, f, source, manifest, minimum) && EntryIs(o, manifest, f.file, after[f.file])
  {
    assert EntryIs(o, manifest, f.file, after[f.file]) && EntryIs(o, source.manifest, f.file, before[f.file]);
    var r :| r in manifest && r.path == f.file && o.entryHash(r) == after[f.file];
    assert EntryIs(o, source.manifest, f.file, o.entryHash(r));
  }

  lemma SettledMeans(o: Oracles, f: Finding, source: Report, manifest: seq<Record>, minimum: string,
                     before: map<string, string>, after: map<string, string>)
    requires HashesAre(o, source.manifest, before) && HashesAre(o, manifest, after)
    requires Settled(o, f, source, manifest, minimum)
    ensures f.file in before && f.file in after && before[f.file] == after[f.file]
  {
    var r :| r in manifest && r.path == f.file && EntryIs(o, source.manifest, f.file, o.entryHash(r));
    var q :| q in source.manifest && q.path == f.file && o.entryHash(q) == o.entryHash(r);
  }

  lemma OneMore(o: Oracles, bindings: seq<Binding>, b: Binding, findings: seq<Finding>, manifest: seq<Record>,
                f: Finding)
    requires WellBound(o, bindings, findings, manifest) && b.findingId !in IdsOf(bindings)
    requires f in findings && f.source.Deterministic? && o.findingId(f) == b.findingId && f.file == b.path
    requires !f.hardBlock && f.category != "coverage" && EntryIs(o, manifest, b.path, b.entryHash)
    ensures WellBound(o, bindings + [b], findings, manifest)
    ensures IdsOf(bindings + [b]) == IdsOf(bindings) + {b.findingId}
  {
    assert Bound(o, b, findings, manifest);
    var all := bindings + [b];
    forall i, j | 0 <= i < j < |all| ensures all[i].findingId != all[j].findingId {
      assert bindings != [] ==> all[i] in bindings;
      if j < |bindings| {
        assert bindings[i].findingId != bindings[j].findingId;
      } else {
        assert all[i].findingId in IdsOf(bindings);
      }
    }
    assert b in all;
    forall id | id in IdsOf(bindings) + {b.findingId} ensures id in IdsOf(all) {
      if id != b.findingId {
        var c :| c in bindings && c.findingId == id;
        assert c in all;
      }
    }
  }

  // ---------------------------------------------------------------- evaluation

  datatype Service = Service(
    ai: bool, unavailable: bool, minimumSeverity: string, minimumConfidence: string, phases: set<Phase>,
    fingerprint: string, initializationError: string, coverageError: string)

  /** What NewAuditService guarantees of the service it returns. */
  predicate Built(s: Service) {
    && (!s.ai ==> !s.unavailable && s.initializationError == "")
    && (s.unavailable ==> TrimSpace(s.initializationError) != "")
  }

  datatype Review = Failed(message: string) | Returned(sameMetadata: bool, verdicts: seq<Verdict>)

  /** One scan to decide: `stored` is the report named by the token that was
      spent for it, if there was one, and `review` what the provider would answer. */
  datatype Scan = Scan(
    packageBase: string, phase: Phase, inv: Inventory, carried: Option<Carried>, stored: Option<Report>,
    review: Review, forceAi: bool, id: string, transaction: string)

  datatype Outcome = StateFailure | Reported(report: Report)

  function Marked(findings: seq<Finding>): (r: seq<Finding>)
    ensures |r| == |findings|
  {
    seq(|findings|, i requires 0 <= i < |findings| => findings[i].(source := Deterministic))
  }

  function Join(a: string, b: string): string {
    var x, y := TrimSpace(a), TrimSpace(b);
    if x == "" then y else if y == "" then x else x + "; " + y
  }

  function Truncate(s: string, limit: nat): (r: string)
    ensures |r| <= limit && (limit > 0 ==> (r == "" <==> s == ""))
  {
    if |s| > limit then s[..limit] else s
  }

  const MAX_ERROR := 4096

  /** A report that a spent token may stand on. */
  predicate Authorizes(stored: Report, s: Service, scan: Scan) {
    && stored.packageBase == scan.packageBase && stored.phase == scan.phase
    && stored.contentHash == scan.inv.manifestHash && stored.fingerprint == s.fingerprint
    && stored.approvalEligible
  }

  predicate Overridden(scan: Scan) {
    !StructuralBlock(Marked(scan.inv.findings), scan.inv.complete) && scan.stored.Some? && scan.inv.manifestHash != ""
  }

  /** An approval of this very content replaces what was carried. */
  function CarriedBy(scan: Scan): Option<Carried> {
    if Overridden(scan) then None else scan.carried
  }

  function ErrorBefore(s: Service, scan: Scan): string {
    if Overridden(scan) then scan.stored.value.reviewer.error else Join(s.initializationError, s.coverageError)
  }

  predicate Asks(s: Service, scan: Scan) {
    && s.ai && !(Rank(s.minimumSeverity) != 0 && HardBlock(Marked(scan.inv.findings))) && !Overridden(scan)
    && ErrorBefore(s, scan) == "" && (scan.forceAi || scan.phase in s.phases)
  }

  const METADATA_CHANGED := "provider metadata changed between compatibility probe and review"
  const NO_VERDICT := "provider review returned no verdict"

  function ErrorAfter(s: Service, scan: Scan): string {
    Truncate(
      if !Asks(s, scan) then ErrorBefore(s, scan)
      else if scan.review.Failed? then scan.review.message
      else if !scan.review.sameMetadata then METADATA_CHANGED
      else if scan.review.verdicts == [] then NO_VERDICT
      else "", MAX_ERROR)
  }

  function VerdictsUsed(s: Service, scan: Scan): seq<Verdict> {
    if Overridden(scan) then scan.stored.value.reviewer.verdicts
    else if Asks(s, scan) && scan.review.Returned? && scan.review.sameMetadata then scan.review.verdicts
    else []
  }

  /** A verdict that keeps the scan from being allowed. */
  predicate Objects(v: Verdict, s: Service) {
    || !v.allows || !ConfidenceAtLeast(v.confidence, s.minimumConfidence) || v.promptInjection || v.coverageNotes != []
    || exists f :: f in v.findings && AtLeast(f.severity, s.minimumSeverity)
  }

  predicate ModelBlocks(verdicts: seq<Verdict>, s: Service) {
    exists v :: v in verdicts && Objects(v, s)
  }

  predicate Allows(o: Oracles, s: Service, scan: Scan) {
    || Overridden(scan)
    || (&& DeterministicAllow(o, scan.inv.(findings := Marked(scan.inv.findings)), s.minimumSeverity,
         CarriedIds(CarriedBy(scan)))
        && !(s.ai && ModelBlocks(VerdictsUsed(s, scan), s)))
  }

  // ---------------------------------------------------------------- merging model findings

  /** What a reader of the report sees of a finding. */
  datatype Key = Key(severity: string, category: string, file: string, line: Option<int>, evidence: string,
                     rationale: string)

  function KeyOf(f: Finding): Key {
    Key(f.severity, f.category, f.file, f.line, f.evidence, f.rationale)
  }

  function KeysOf(findings: seq<Finding>): set<Key> {
    set f | f in findings :: KeyOf(f)
  }

  function FromModel(f: ReviewFinding): Finding {
    Finding(Ai, f.severity, f.category, f.file, f.line, f.evidence, f.rationale, "ai-review", false)
  }

  predicate Says(v: Verdict, f: Finding) {
    exists m :: m in v.findings && FromModel(m) == f
  }

  predicate SomeoneSays(verdicts: seq<Verdict>, f: Finding) {
    exists v :: v in verdicts && Says(v, f)
  }

  /** `merged` is what the verdicts say beyond `own`, each content once. */
  ghost predicate Merged(own: seq<Finding>, verdicts: seq<Verdict>, merged: seq<Finding>) {
    && (forall f :: f in merged ==> SomeoneSays(verdicts, f) && KeyOf(f) !in KeysOf(own))
    && (forall f :: SomeoneSays(verdicts, f) ==> KeyOf(f) in KeysOf(own) + KeysOf(merged))
    && (forall i, j :: 0 <= i < j < |merged| ==> KeyOf(merged[i]) != KeyOf(merged[j]))
  }

  method MergeModelFindings(own: seq<Finding>, verdicts: seq<Verdict>, s: Service)
    returns (merged: seq<Finding>, blocks: bool)
    ensures Merged(own, verdicts, merged)
    ensures blocks <==> ModelBlocks(verdicts, s)
  {
    hide Says, SomeoneSays, Merged, KeysOf, KeyOf, FromModel, AtLeast, ConfidenceAtLeast;
    merged, blocks := [], false;
    var seen := KeysOf(own);
    NothingMerged(own);
    for i := 0 to |verdicts|
      invariant seen == KeysOf(own) + KeysOf(merged)
      invariant Merged(own, verdicts[..i], merged)
      invariant blocks <==> ModelBlocks(verdicts[..i], s)
    {
      var v := verdicts[i];
      assert verdicts[..i + 1] == verdicts[..i] + [v];
      var severe := false;
      MergeNothing(own, verdicts[..i], v, merged);
      for j := 0 to |v.findings|
        invariant seen == KeysOf(own) + KeysOf(merged)
        invariant Merged(own, verdicts[..i] + [v.(findings := v.findings[..j])], merged)
        invariant severe <==> exists f :: f in v.findings[..j] && AtLeast(f.severity, s.minimumSeverity)
      {
        var finding := v.findings[j];
        assert v.findings[..j + 1] == v.findings[..j] + [finding];
        severe := severe || AtLeast(finding.severity, s.minimumSeverity);
        var modelFinding := FromModel(finding);
        MergeOne(own, verdicts[..i], v, j, merged);
        if KeyOf(modelFinding) !in seen {
          merged := merged + [modelFinding];
          seen := seen + {KeyOf(modelFinding)};
        }
      }
      assert v.(findings := v.findings[..|v.findings|]) == v && v.findings[..|v.findings|] == v.findings;
      assert ModelBlocks(verdicts[..i + 1], s) <==> ModelBlocks(verdicts[..i], s) || Objects(v, s);
      if severe || !v.allows || !ConfidenceAtLeast(v.confidence, s.minimumConfidence) || v.promptInjection
          || v.coverageNotes != [] {
        blocks := true;
      }
    }
    assert verdicts[..|verdicts|] == verdicts;
  }

  lemma SayNothing(before: seq<Verdict>, v: Verdict)
    ensures forall f :: SomeoneSays(before + [v.(findings := v.findings[..0])], f) <==> SomeoneSays(before, f)
  {
    var last := v.(findings := v.findings[..0]);
    forall f ensures SomeoneSays(before + [last], f) <==> SomeoneSays(before, f) {
      assert !Says(last, f);
      if SomeoneSays(before, f) {
        var u :| u in before && Says(u, f);
        assert u in before + [last];
      }
    }
  }

  lemma OneMoreSays(before: seq<Verdict>, v: Verdict, j: nat)
    requires j < |v.findings|
    ensures forall f :: SomeoneSays(before + [v.(findings := v.findings[..j + 1])], f) <==>
                        SomeoneSays(before + [v.(findings := v.findings[..j])], f) || f == FromModel(v.findings[j])
  {
    var a, b := v.(findings := v.findings[..j]), v.(findings := v.findings[..j + 1]);
    assert b.findings == a.findings + [v.findings[j]];
    forall f ensures SomeoneSays(before + [b], f) <==> SomeoneSays(before + [a], f) || f == FromModel(v.findings[j]) {
      assert Says(b, f) <==> Says(a, f) || f == FromModel(v.findings[j]);
      LastSays(before, a, f);
      LastSays(before, b, f);
    }
  }

  lemma LastSays(before: seq<Verdict>, v: Verdict, f: Finding)
    ensures SomeoneSays(before + [v], f) <==> SomeoneSays(before, f) || Says(v, f)
  {
    assert v in before + [v];
    if SomeoneSays(before, f) {
      var u :| u in before && Says(u, f);
      assert u in before + [v];
    }
  }

  lemma OneMoreKey(merged: seq<Finding>, f: Finding)
    ensures KeysOf(merged + [f]) == KeysOf(merged) + {KeyOf(f)}
    ensures forall g :: g in merged ==> KeyOf(g) in KeysOf(merged)
  {
    assert f in merged + [f];
    assert forall g :: g in merged ==> g in merged + [f];
  }

  lemma NothingMerged(own: seq<Finding>)
    ensures Merged(own, [], []) && KeysOf([]) == {}
  {
  }

  lemma MergeNothing(own: seq<Finding>, before: seq<Verdict>, v: Verdict, merged: seq<Finding>)
    requires Merged(own, before, merged)
    ensures Merged(own, before + [v.(findings := v.findings[..0])], merged)
  {
    hide Says, SomeoneSays, KeysOf, KeyOf, FromModel;
    SayNothing(before, v);
  }

  lemma MergeOne(own: seq<Finding>, before: seq<Verdict>, v: Verdict, j: nat, merged: seq<Finding>)
    requires j < |v.findings| && Merged(own, before + [v.(findings := v.findings[..j])], merged)
    ensures var f, verdicts := FromModel(v.findings[j]), before + [v.(findings := v.findings[..j + 1])];
            && KeysOf(merged + [f]) == KeysOf(merged) + {KeyOf(f)}
            && if KeyOf(f) in KeysOf(own) + KeysOf(merged) then Merged(own, verdicts, merged)
                 else Merged(own, verdicts, merged + [f])
  {
    hide Says, SomeoneSays, KeysOf, KeyOf, FromModel;
    OneMoreSays(before, v, j);
    OneMoreKey(merged, FromModel(v.findings[j]));
  }

  // ---------------------------------------------------------------- the report

  /** `r` is the report that evaluation builds for the scan. */
  ghost predicate IsReport(o: Oracles, s: Service, scan: Scan, r: Report) {
    var own, verdicts := Marked(scan.inv.findings), VerdictsUsed(s, scan);
    && (Overridden(scan) ==> Authorizes(scan.stored.value, s, scan))
    && r.id == scan.id && r.transaction == scan.transaction && r.packageBase == scan.packageBase
    && r.phase == scan.phase
    && r.contentHash == scan.inv.manifestHash && r.fingerprint == s.fingerprint
    && r.complete == scan.inv.complete && r.manifest == scan.inv.manifest
    && r.reviewer == Reviewer(s.ai, s.unavailable, ErrorAfter(s, scan), scan.forceAi, verdicts)
    && (exists merged :: Merged(own, verdicts, merged) && r.findings == o.arrange(own + merged))
    && r.overridden == Overridden(scan) && r.carried == CarriedBy(scan)
    && r.allows == Allows(o, s, scan)
    && r.disposition == (if r.overridden then Override else if r.allows then Allowed else Blocked)
    && r.approvalEligible == Eligible(o, s, scan)
    && r.networkEligible == (r.allows && r.phase.Post? && r.contentHash != "")
  }

  predicate Eligible(o: Oracles, s: Service, scan: Scan) {
    && !Allows(o, s, scan) && scan.inv.manifestHash != ""
    && !StructuralBlock(Marked(scan.inv.findings), scan.inv.complete)
    && s.coverageError == "" && !PromptInjection(VerdictsUsed(s, scan))
  }

  method Evaluate(o: Oracles, s: Service, scan: Scan) returns (outcome: Outcome)
    ensures outcome.StateFailure? <==> Overridden(scan) && !Authorizes(scan.stored.value, s, scan)
    ensures outcome.Reported? ==> IsReport(o, s, scan, outcome.report)
  {
    hide StructuralBlock, HardBlock, DecisionBlock, Merged, PromptInjection, ModelBlocks, Join, Truncate, Marked;
    var inv := scan.inv.(findings := Marked(scan.inv.findings));
    var carried := scan.carried;
    var carriedIds := CarriedIds(carried);
    var deterministic := AssessDeterministicAt(o, inv, s.minimumSeverity, carriedIds);
    var verdicts: seq<Verdict> := [];
    var reviewError := Join(s.initializationError, s.coverageError);
    var overridden := false;
    if !deterministic.structuralBlock {
      if scan.stored.Some? && inv.manifestHash != "" {
        var source := scan.stored.value;
        if !Authorizes(source, s, scan) {
          return StateFailure;
        }
        overridden := true;
        verdicts := verdicts + source.reviewer.verdicts;
        reviewError := source.reviewer.error;
        carried, carriedIds := None, {};
      }
    }
    assert overridden ==> verdicts == scan.stored.value.reviewer.verdicts;
    var skipped := s.ai && !scan.forceAi && scan.phase !in s.phases;
    if s.ai && !deterministic.hardBlock && !overridden && reviewError == "" && !skipped {
      if scan.review.Failed? {
        reviewError := scan.review.message;
      } else if !scan.review.sameMetadata {
        reviewError := METADATA_CHANGED;
      } else if scan.review.verdicts == [] {
        reviewError := NO_VERDICT;
      } else {
        verdicts := scan.review.verdicts;
      }
    }
    reviewError := Truncate(reviewError, MAX_ERROR);
    assert verdicts == VerdictsUsed(s, scan) && reviewError == ErrorAfter(s, scan);
    var modelFindings, modelBlocks := MergeModelFindings(inv.findings, verdicts, s);
    var allowed := overridden || deterministic.allows;
    if s.ai && !overridden && modelBlocks {
      allowed := false;
    }
    var disposition := Blocked;
    if allowed {
      disposition := if overridden then Override else Allowed;
    }
    var injected := HasPromptInjection(verdicts);
    var eligible := !allowed && inv.manifestHash != "" && !deterministic.structuralBlock && s.coverageError == ""
      && !injected;
    return Reported(Report(
      scan.id, scan.transaction, scan.packageBase, scan.phase, allowed, disposition, inv.manifestHash, s.fingerprint,
      Reviewer(s.ai, s.unavailable, reviewError, scan.forceAi, verdicts), inv.complete, inv.manifest,
      o.arrange(inv.findings + modelFindings), overridden, eligible,
      allowed && scan.phase.Post? && inv.manifestHash != "", carried));
  }

  method HasPromptInjection(verdicts: seq<Verdict>) returns (injected: bool)
    ensures injected <==> PromptInjection(verdicts)
  {
    for i := 0 to |verdicts|
      invariant forall v :: v in verdicts[..i] ==> !v.promptInjection
    {
      if verdicts[i].promptInjection {
        return true;
      }
    }
    return false;
  }

  // ---------------------------------------------------------------- live markers

  datatype Marker = Marker(
    root: string, phase: Phase, packageBase: string, reportId: string, contentHash: string, fingerprint: string,
    allows: bool, disposition: Disposition, transaction: string)

  /** Names one marker file. */
  datatype Slot = Slot(root: string, phase: Phase, transaction: string)

  function MarkerFor(root: string, phase: Phase, r: Report): Marker {
    Marker(root, phase, r.packageBase, r.id, r.contentHash, r.fingerprint, r.allows, r.disposition, r.transaction)
  }

  predicate Describes(m: Marker, r: Report) {
    && m.packageBase == r.packageBase && m.contentHash == r.contentHash && m.fingerprint == r.fingerprint
    && m.allows == r.allows && m.disposition == r.disposition
  }

  /** loadLiveMarkerReport: the report that the marker of this transaction points
      at, provided that it allows under the present policy. */
  function LoadLive(markers: map<Slot, Marker>, reports: map<string, Report>, slot: Slot, fingerprint: string,
                    alive: bool): (r: Option<Report>)
  {
    if slot !in markers then None else
      var m := markers[slot];
      if m.root != slot.root || m.phase != slot.phase || !m.allows || m.reportId !in reports then None else
        var r := reports[m.reportId];
        if Describes(m, r) && m.fingerprint == fingerprint && m.transaction == slot.transaction
          && r.transaction == slot.transaction && alive
        then Some(r) else None
  }
}
