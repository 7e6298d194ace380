/** What the decision rules of internal/audit/policy.go come to for a reader of a
    report: the order of severities, when a report is allowed, open to approval or
    carried over, which verdicts it rests on and which findings it shows, and what
    an edited report must still satisfy. */
module DecisionOutcomes {
  import opened Text
  import opened DecisionPolicy
  import opened ReportCoherence

  // ---------------------------------------------------------------- orders

  const SEVERITIES := ["info", "low", "medium", "high", "critical"]
  const CONFIDENCES := ["low", "medium", "high"]

  /** `minimum` stands in the list and `actual` at or behind it. */
  predicate Reaches(order: seq<string>, actual: string, minimum: string) {
    exists i, j :: 0 <= i <= j < |order| && order[i] == minimum && order[j] == actual
  }

  /** A severity is at least another exactly when it does not come before it in the
      list; an unknown threshold is never reached. */
  lemma SeverityOrder(actual: string, minimum: string)
    ensures AtLeast(actual, minimum) <==> Reaches(SEVERITIES, actual, minimum)
    ensures Rank(minimum) != 0 <==> minimum in SEVERITIES
  {
    RanksAreIndices(actual);
    RanksAreIndices(minimum);
    if AtLeast(actual, minimum) {
      assert SEVERITIES[Rank(minimum) - 1] == minimum && SEVERITIES[Rank(actual) - 1] == actual;
    }
    if Reaches(SEVERITIES, actual, minimum) {
      var i, j :| 0 <= i <= j < |SEVERITIES| && SEVERITIES[i] == minimum && SEVERITIES[j] == actual;
      assert Rank(SEVERITIES[i]) == i + 1 && Rank(SEVERITIES[j]) == j + 1;
    }
  }

  lemma RanksAreIndices(severity: string)
    ensures forall i :: 0 <= i < 5 ==> Rank(SEVERITIES[i]) == i + 1
    ensures Rank(severity) == 0 || SEVERITIES[Rank(severity) - 1] == severity
  {
    assert SEVERITIES[0] == "info" && SEVERITIES[1] == "low" && SEVERITIES[2] == "medium" && SEVERITIES[3] == "high"
        && SEVERITIES[4] == "critical";
  }

  lemma ConfidenceOrder(actual: string, minimum: string)
    ensures ConfidenceAtLeast(actual, minimum) <==> Reaches(CONFIDENCES, actual, minimum)
  {
    assert CONFIDENCES[0] == "low" && CONFIDENCES[1] == "medium" && CONFIDENCES[2] == "high";
    if ConfidenceAtLeast(actual, minimum) {
      assert CONFIDENCES[ConfidenceRank(minimum) - 1] == minimum && CONFIDENCES[ConfidenceRank(actual) - 1] == actual;
    }
    if Reaches(CONFIDENCES, actual, minimum) {
      var i, j :| 0 <= i <= j < |CONFIDENCES| && CONFIDENCES[i] == minimum && CONFIDENCES[j] == actual;
      assert ConfidenceRank(CONFIDENCES[i]) == i + 1 && ConfidenceRank(CONFIDENCES[j]) == j + 1;
    }
  }

  /** At the default threshold a high or critical finding that was not decided before
      blocks, and milder findings alone do not. */
  lemma DefaultThreshold(o: Oracles, inv: Inventory, carried: set<string>)
    ensures (exists f :: f in inv.findings && f.severity in {"high", "critical"} && o.findingId(f) !in carried) ==>
              !DeterministicAllow(o, inv, "high", carried)
    ensures inv.complete
            && (forall f :: f in inv.findings ==> f.severity in {"info", "low", "medium"} && !f.hardBlock) ==>
              DeterministicAllow(o, inv, "high", carried)
  {
    if f :| f in inv.findings && f.severity in {"high", "critical"} && o.findingId(f) !in carried {
      assert AtLeast(f.severity, "high");
    }
  }

  // ---------------------------------------------------------------- approval

  /** Findings about the content boundary itself. */
  predicate Unapprovable(f: Finding) {
    || f.hardBlock
    || f.category == "archive_escape"
    || "TOCTOU" <= f.rationale
    || f.ruleId in ["special-file", "symlink-escape", "source-reference-escape", "binary-header-invalid",
                    "archive-depth-limit"]
  }

  predicate OpenToApproval(findings: seq<Finding>, complete: bool) {
    complete && forall f :: f in findings ==> !Unapprovable(f)
  }

  lemma StructuralExactly(findings: seq<Finding>, complete: bool)
    ensures StructuralBlock(findings, complete) <==> !OpenToApproval(findings, complete)
  {
    forall f ensures Structural(f) <==> Unapprovable(f) {
      HasPrefixMeansPrefix(f.rationale, "TOCTOU");
    }
  }

  lemma MarkedStructural(findings: seq<Finding>, complete: bool)
    ensures StructuralBlock(Marked(findings), complete) <==> !OpenToApproval(findings, complete)
  {
    StructuralExactly(findings, complete);
    var own := Marked(findings);
    forall i | 0 <= i < |findings| ensures Structural(own[i]) <==> Structural(findings[i]) {}
    if StructuralBlock(own, complete) && complete {
      var f :| f in own && Structural(f);
      var i :| 0 <= i < |own| && own[i] == f;
      assert findings[i] in findings && Structural(findings[i]);
    }
    if StructuralBlock(findings, complete) && complete {
      var f :| f in findings && Structural(f);
      var i :| 0 <= i < |findings| && findings[i] == f;
      assert own[i] in own && Structural(own[i]);
    }
  }

  /** A token was spent for this content and nothing in it is beyond approval. */
  predicate Spent(scan: Scan) {
    scan.stored.Some? && scan.inv.manifestHash != "" && OpenToApproval(scan.inv.findings, scan.inv.complete)
  }

  /** Evaluation fails exactly when the report behind the token is of another
      package, phase, content or policy, or was not open to approval. */
  lemma FailsExactly(s: Service, scan: Scan)
    ensures Overridden(scan) <==> Spent(scan)
    ensures Overridden(scan) && !Authorizes(scan.stored.value, s, scan) <==>
            Spent(scan) &&
            var stored := scan.stored.value;
            || stored.packageBase != scan.packageBase || stored.phase != scan.phase
            || stored.contentHash != scan.inv.manifestHash || stored.fingerprint != s.fingerprint
            || !stored.approvalEligible
  {
    hide StructuralBlock, Marked, OpenToApproval;
    MarkedStructural(scan.inv.findings, scan.inv.complete);
  }

  // ---------------------------------------------------------------- decision

  /** The finding is one of those an earlier decision of the user settled. */
  predicate Decided(o: Oracles, scan: Scan, f: Finding) {
    scan.carried.Some?
    && exists b :: b in scan.carried.value.bindings && b.findingId == o.findingId(f.(source := Deterministic))
  }

  predicate RulesPass(o: Oracles, s: Service, scan: Scan) {
    && s.minimumSeverity in SEVERITIES && scan.inv.complete
    && forall f :: f in scan.inv.findings ==>
         !f.hardBlock && (Reaches(SEVERITIES, f.severity, s.minimumSeverity) ==> Decided(o, scan, f))
  }

  /** The provider was asked, and what it answered counts. */
  predicate Reviewed(s: Service, scan: Scan) {
    && s.ai && White(s.initializationError) && White(s.coverageError)
    && (scan.forceAi || scan.phase in s.phases)
    && (s.minimumSeverity in SEVERITIES ==> forall f :: f in scan.inv.findings ==> !f.hardBlock)
    && scan.review.Returned? && scan.review.sameMetadata
  }

  predicate Supports(v: Verdict, s: Service) {
    && v.allows && Reaches(CONFIDENCES, v.confidence, s.minimumConfidence) && !v.promptInjection
    && v.coverageNotes == []
    && forall f :: f in v.findings ==> !Reaches(SEVERITIES, f.severity, s.minimumSeverity)
  }

  function Verdicts(s: Service, scan: Scan): seq<Verdict> {
    if Spent(scan) then scan.stored.value.reviewer.verdicts
    else if Reviewed(s, scan) then scan.review.verdicts
    else []
  }

  lemma TrimmedIsEmpty(s: string)
    ensures TrimSpace(s) == "" <==> White(s)
  {
    var a, b := TrimSpaceExactly(s);
    var t := TrimSpace(s);
    if t == "" {
      assert s == a + b;
    } else {
      assert s[|a|] == t[..1][0];
    }
  }

  lemma JoinedIsEmpty(a: string, b: string)
    ensures Join(a, b) == "" <==> White(a) && White(b)
  {
    TrimmedIsEmpty(a);
    TrimmedIsEmpty(b);
  }

  lemma HardMarked(findings: seq<Finding>)
    ensures HardBlock(Marked(findings)) <==> exists f :: f in findings && f.hardBlock
  {
    var own := Marked(findings);
    if f :| f in own && f.hardBlock {
      var i :| 0 <= i < |own| && own[i] == f;
      assert findings[i] in findings;
    }
    if f :| f in findings && f.hardBlock {
      var i :| 0 <= i < |findings| && findings[i] == f;
      assert own[i] in own;
    }
  }

  /** The report rests on the verdicts behind the spent token, on the provider's if
      it was asked, and otherwise on none. */
  lemma VerdictsExactly(s: Service, scan: Scan)
    ensures VerdictsUsed(s, scan) == Verdicts(s, scan)
  {
    hide Join, White, HardBlock, StructuralBlock, Marked, Spent;
    FailsExactly(s, scan);
    JoinedIsEmpty(s.initializationError, s.coverageError);
    HardMarked(scan.inv.findings);
    SeverityOrder("", s.minimumSeverity);
  }

  lemma RulesExactly(o: Oracles, s: Service, scan: Scan)
    ensures var inv := scan.inv.(findings := Marked(scan.inv.findings));
            DeterministicAllow(o, inv, s.minimumSeverity, CarriedIds(scan.carried)) <==> RulesPass(o, s, scan)
  {
    hide AtLeast, Rank, HardBlock, Reaches;
    var own, ids := Marked(scan.inv.findings), CarriedIds(scan.carried);
    HardMarked(scan.inv.findings);
    SeverityOrder("", s.minimumSeverity);
    forall i | 0 <= i < |own|
      ensures AtLeast(own[i].severity, s.minimumSeverity) <==>
              Reaches(SEVERITIES, scan.inv.findings[i].severity, s.minimumSeverity)
      ensures o.findingId(own[i]) in ids <==> Decided(o, scan, scan.inv.findings[i])
    {
      SeverityOrder(own[i].severity, s.minimumSeverity);
    }
    if f :| f in own && AtLeast(f.severity, s.minimumSeverity) && o.findingId(f) !in ids {
      var i :| 0 <= i < |own| && own[i] == f;
      assert scan.inv.findings[i] in scan.inv.findings;
    }
    if f :| f in scan.inv.findings && Reaches(SEVERITIES, f.severity, s.minimumSeverity) && !Decided(o, scan, f) {
      var i :| 0 <= i < |own| && scan.inv.findings[i] == f;
      assert own[i] in own;
    }
  }

  lemma ObjectsExactly(v: Verdict, s: Service)
    ensures Objects(v, s) <==> !Supports(v, s)
  {
    hide AtLeast, ConfidenceAtLeast, Reaches;
    ConfidenceOrder(v.confidence, s.minimumConfidence);
    forall f | f in v.findings
      ensures AtLeast(f.severity, s.minimumSeverity) <==> Reaches(SEVERITIES, f.severity, s.minimumSeverity)
    {
      SeverityOrder(f.severity, s.minimumSeverity);
    }
  }

  /** A report allows exactly when a token was spent for this content, or when the
      rules pass and every verdict of a provider that was asked supports it. */
  lemma AllowedExactly(o: Oracles, s: Service, scan: Scan, r: Report)
    requires IsReport(o, s, scan, r)
    ensures r.overridden <==> Spent(scan)
    ensures r.allows <==>
            || Spent(scan)
            || (RulesPass(o, s, scan)
                && (Reviewed(s, scan) ==> forall v :: v in scan.review.verdicts ==> Supports(v, s)))
  {
    hide Merged, Marked, Spent, DeterministicAllow, RulesPass, Reviewed, Supports, Objects, Eligible, ErrorAfter,
         Authorizes;
    FailsExactly(s, scan);
    VerdictsExactly(s, scan);
    RulesExactly(o, s, scan);
    ReviewNeedsAi(s, scan);
    forall v ensures Objects(v, s) <==> !Supports(v, s) {
      ObjectsExactly(v, s);
    }
  }

  lemma ReviewNeedsAi(s: Service, scan: Scan)
    ensures Reviewed(s, scan) ==> s.ai
  {
  }

  /** Only a blocked report can be approved: of a complete inventory without a
      finding about the boundary, by a working archive probe, without injection. */
  lemma ApprovableExactly(o: Oracles, s: Service, scan: Scan, r: Report)
    requires IsReport(o, s, scan, r)
    ensures r.reviewer.verdicts == Verdicts(s, scan)
    ensures r.approvalEligible <==>
            && !r.allows && r.contentHash != "" && OpenToApproval(scan.inv.findings, scan.inv.complete)
            && s.coverageError == "" && forall v :: v in r.reviewer.verdicts ==> !v.promptInjection
    ensures r.networkEligible <==> r.allows && r.phase == Post && scan.inv.manifestHash != ""
    ensures r.disposition == if Spent(scan) then Override else if r.allows then Allowed else Blocked
  {
    hide Merged, Marked, StructuralBlock, OpenToApproval, Allows, ErrorAfter, Authorizes, Spent, VerdictsUsed, Verdicts;
    FailsExactly(s, scan);
    VerdictsExactly(s, scan);
    MarkedStructural(scan.inv.findings, scan.inv.complete);
  }

  /** A report without an error text: the error of the approved report was empty, or
      the service was sound and the provider, if it was asked, answered. */
  lemma NoErrorExactly(o: Oracles, s: Service, scan: Scan, r: Report)
    requires IsReport(o, s, scan, r)
    ensures r.reviewer.error == "" <==>
            if Spent(scan) then scan.stored.value.reviewer.error == ""
            else
              && White(s.initializationError) && White(s.coverageError)
              && (s.ai && (scan.forceAi || scan.phase in s.phases)
                  && (s.minimumSeverity in SEVERITIES ==> forall f :: f in scan.inv.findings ==> !f.hardBlock) ==>
                    if scan.review.Failed? then scan.review.message == ""
                    else scan.review.sameMetadata && scan.review.verdicts != [])
  {
    hide Merged, Join, White, HardBlock, StructuralBlock, Marked, Spent, Allows, Authorizes, Eligible, VerdictsUsed;
    FailsExactly(s, scan);
    JoinedIsEmpty(s.initializationError, s.coverageError);
    HardMarked(scan.inv.findings);
    SeverityOrder("", s.minimumSeverity);
  }

  // ---------------------------------------------------------------- the findings shown

  predicate SameContent(f: Finding, g: Finding) {
    && f.severity == g.severity && f.category == g.category && f.file == g.file && f.line == g.line
    && f.evidence == g.evidence && f.rationale == g.rationale
  }

  predicate SaysIt(m: ReviewFinding, f: Finding) {
    f == Finding(Ai, m.severity, m.category, m.file, m.line, m.evidence, m.rationale, "ai-review", false)
  }

  predicate SaidBy(verdicts: seq<Verdict>, f: Finding) {
    exists v, m :: v in verdicts && m in v.findings && SaysIt(m, f)
  }

  lemma SaidExactly(verdicts: seq<Verdict>, f: Finding)
    ensures SomeoneSays(verdicts, f) <==> SaidBy(verdicts, f)
  {
    if SomeoneSays(verdicts, f) {
      var v :| v in verdicts && Says(v, f);
      var m :| m in v.findings && FromModel(m) == f;
      assert SaysIt(m, f);
    }
    if SaidBy(verdicts, f) {
      var v, m :| v in verdicts && m in v.findings && SaysIt(m, f);
      assert FromModel(m) == f && Says(v, f);
    }
  }

  lemma ContentExactly(f: Finding, g: Finding)
    ensures KeyOf(f) == KeyOf(g) <==> SameContent(f, g)
  {
  }

  lemma HasKey(findings: seq<Finding>, f: Finding)
    ensures KeyOf(f) in KeysOf(findings) <==> exists g :: g in findings && SameContent(f, g)
  {
    forall g ensures KeyOf(f) == KeyOf(g) <==> SameContent(f, g) {
      ContentExactly(f, g);
    }
  }

  /** The report shows every deterministic finding as often as it was found, and
      besides exactly what the verdicts say beyond them, each content once. */
  lemma ShownExactly(o: Oracles, s: Service, scan: Scan, r: Report) returns (model: seq<Finding>)
    requires Sound(o) && IsReport(o, s, scan, r)
    ensures multiset(r.findings) == multiset(Marked(scan.inv.findings)) + multiset(model)
    ensures forall i :: 0 <= i < |scan.inv.findings| ==>
              Marked(scan.inv.findings)[i] == scan.inv.findings[i].(source := Deterministic)
    ensures forall f :: f in model ==>
              SaidBy(r.reviewer.verdicts, f) && forall g :: g in Marked(scan.inv.findings) ==> !SameContent(f, g)
    ensures forall f :: SaidBy(r.reviewer.verdicts, f) ==> exists g :: g in r.findings && SameContent(f, g)
    ensures forall i, j :: 0 <= i < j < |model| ==> !SameContent(model[i], model[j])
  {
    hide IsReport, SaidBy, Merged, SameContent, VerdictsUsed;
    var own := Marked(scan.inv.findings);
    model := ModelPart(o, s, scan, r);
    MergedExactly(own, r.reviewer.verdicts, model);
    SameMembers(r.findings, own, model);
  }

  lemma ModelPart(o: Oracles, s: Service, scan: Scan, r: Report) returns (model: seq<Finding>)
    requires Sound(o) && IsReport(o, s, scan, r)
    ensures Merged(Marked(scan.inv.findings), r.reviewer.verdicts, model)
    ensures multiset(r.findings) == multiset(Marked(scan.inv.findings)) + multiset(model)
  {
    hide Merged, Marked, VerdictsUsed, ErrorAfter, Allows, Overridden, Authorizes, Eligible, CarriedBy;
    var own := Marked(scan.inv.findings);
    model :| Merged(own, VerdictsUsed(s, scan), model) && r.findings == o.arrange(own + model);
    assert multiset(own + model) == multiset(own) + multiset(model);
  }

  lemma SameMembers(all: seq<Finding>, a: seq<Finding>, b: seq<Finding>)
    requires multiset(all) == multiset(a) + multiset(b)
    ensures forall f :: f in all <==> f in a || f in b
  {
    forall f ensures f in all <==> f in a || f in b {
      assert f in all <==> f in multiset(all);
    }
  }

  lemma MergedExactly(own: seq<Finding>, verdicts: seq<Verdict>, model: seq<Finding>)
    requires Merged(own, verdicts, model)
    ensures forall f :: f in model ==> SaidBy(verdicts, f) && forall g :: g in own ==> !SameContent(f, g)
    ensures forall f :: SaidBy(verdicts, f) ==> exists g :: (g in own || g in model) && SameContent(f, g)
    ensures forall i, j :: 0 <= i < j < |model| ==> !SameContent(model[i], model[j])
  {
    hide SaidBy, KeyOf, KeysOf, SomeoneSays, SameContent;
    forall f ensures SomeoneSays(verdicts, f) <==> SaidBy(verdicts, f) {
      SaidExactly(verdicts, f);
    }
    forall f | f in model, g | g in own ensures !SameContent(f, g) {
      HasKey(own, f);
    }
    forall f | SaidBy(verdicts, f) ensures exists g :: (g in own || g in model) && SameContent(f, g) {
      HasKey(own, f);
      HasKey(model, f);
    }
    forall i, j | 0 <= i < j < |model| ensures !SameContent(model[i], model[j]) {
      ContentExactly(model[i], model[j]);
    }
  }

  // ---------------------------------------------------------------- carry-over

  /** Every record is valid and no path occurs twice. */
  predicate CleanManifest(o: Oracles, manifest: seq<Record>) {
    forall i :: 0 <= i < |manifest| ==>
      o.validRecord(manifest[i]) && forall j :: 0 <= j < |manifest| && manifest[j].path == manifest[i].path ==> i == j
  }

  /** The earlier report the user overrode, with nothing that speaks against using it. */
  predicate Usable(o: Oracles, source: Report, packageBase: string) {
    && source.packageBase == packageBase && source.phase == Pre
    && source.allows && source.disposition == Override && source.overridden
    && OpenToApproval(source.findings, source.complete)
    && (forall v :: v in source.reviewer.verdicts ==> !v.promptInjection)
    && CleanManifest(o, source.manifest)
  }

  /** Both manifests hold the file with the same entry hash. */
  predicate SameBytes(o: Oracles, before: seq<Record>, after: seq<Record>, file: string) {
    exists i, j :: 0 <= i < |before| && 0 <= j < |after| && before[i].path == file && after[j].path == file
                   && o.entryHash(before[i]) == o.entryHash(after[j])
  }

  lemma ManifestExactly(o: Oracles, manifest: seq<Record>)
    ensures ValidManifest(o, manifest) <==> CleanManifest(o, manifest)
  {
  }

  lemma SettledExactly(o: Oracles, f: Finding, source: Report, manifest: seq<Record>, minimum: string)
    ensures Settled(o, f, source, manifest, minimum) <==>
            && f.source == Deterministic && Reaches(SEVERITIES, f.severity, minimum) && !f.hardBlock
            && f.category != "coverage" && f in source.findings && SameBytes(o, source.manifest, manifest, f.file)
  {
    hide AtLeast, Reaches;
    SeverityOrder(f.severity, minimum);
    if Settled(o, f, source, manifest, minimum) {
      var r :| r in manifest && r.path == f.file && EntryIs(o, source.manifest, f.file, o.entryHash(r));
      var q :| q in source.manifest && q.path == f.file && o.entryHash(q) == o.entryHash(r);
      var i :| 0 <= i < |source.manifest| && source.manifest[i] == q;
      var j :| 0 <= j < |manifest| && manifest[j] == r;
      assert source.manifest[i].path == f.file;
    }
    if SameBytes(o, source.manifest, manifest, f.file) {
      var i, j :| 0 <= i < |source.manifest| && 0 <= j < |manifest| && source.manifest[i].path == f.file
                  && manifest[j].path == f.file && o.entryHash(source.manifest[i]) == o.entryHash(manifest[j]);
      assert source.manifest[i] in source.manifest && manifest[j] in manifest;
      assert EntryIs(o, source.manifest, f.file, o.entryHash(manifest[j]));
    }
  }

  lemma UsableExactly(o: Oracles, source: Report, packageBase: string)
    ensures CanCarry(source, packageBase) && ValidManifest(o, source.manifest) <==> Usable(o, source, packageBase)
  {
    hide StructuralBlock, Unapprovable;
    StructuralExactly(source.findings, source.complete);
    ManifestExactly(o, source.manifest);
  }

  /** A finding is carried exactly when the live pre report can be used, the new
      manifest is in order, and the finding, at the threshold, was put to the user
      there over the same bytes. */
  lemma CarriedExactly(o: Oracles, carried: Option<Carried>, live: Option<Report>, packageBase: string,
                       inv: Inventory, minimum: string, f: Finding)
    requires CarriesSettled(o, carried, live, packageBase, inv, minimum) && f in inv.findings
    ensures (carried.Some? && exists b :: b in carried.value.bindings && b.findingId == o.findingId(f)) <==>
            && live.Some? && Usable(o, live.value, packageBase) && CleanManifest(o, inv.manifest)
            && f.source == Deterministic && Reaches(SEVERITIES, f.severity, minimum) && !f.hardBlock
            && f.category != "coverage" && f in live.value.findings
            && SameBytes(o, live.value.manifest, inv.manifest, f.file)
  {
    hide Settled, CanCarry, Usable, ValidManifest, CleanManifest, Reaches, SameBytes, WellBound;
    assert o.findingId(f) in CarriedIds(carried) <==>
           carried.Some? && exists b :: b in carried.value.bindings && b.findingId == o.findingId(f);
    if live.Some? {
      SettledExactly(o, f, live.value, inv.manifest, minimum);
      UsableExactly(o, live.value, packageBase);
      ManifestExactly(o, inv.manifest);
    }
  }

  // ---------------------------------------------------------------- stored reports

  /** A stored report whose evidence is kept and whose conclusions are edited is
      accepted exactly if they still follow from the evidence: authority cannot be
      written into it. */
  lemma EditsAreNoticed(o: Oracles, r: Report, allows: bool, disposition: Disposition, overridden: bool,
                        approvalEligible: bool, networkEligible: bool)
    requires Coherent(o, r)
    ensures Coherent(o, r.(allows := allows, disposition := disposition, overridden := overridden,
                           approvalEligible := approvalEligible, networkEligible := networkEligible)) <==>
            && (networkEligible <==> allows && r.phase == Post)
            && (overridden <==> disposition == Override)
            && (overridden ==> r.carried.None?)
            && (approvalEligible ==>
                  && !allows && OpenToApproval(r.findings, r.complete)
                  && forall v :: v in r.reviewer.verdicts ==> !v.promptInjection)
  {
    hide StructuralBlock, OpenToApproval, ValidManifest, WellBound, GuidanceBound;
    StructuralExactly(r.findings, r.complete);
  }

  /** Evidence that does not match is noticed as well. */
  lemma OtherEvidenceIsNoticed(o: Oracles, r: Report)
    ensures o.contentHash(r.manifest) != r.contentHash ==> !Coherent(o, r)
    ensures !CleanManifest(o, r.manifest) ==> !Coherent(o, r)
    ensures (exists v, id :: v in r.reviewer.verdicts && id in v.guidance
                             && forall f :: f in r.findings && f.source == Deterministic ==> o.findingId(f) != id) ==>
              !Coherent(o, r)
    ensures !r.reviewer.ai && (r.reviewer.unavailable || r.reviewer.error != "" || r.reviewer.onDemand
                               || r.reviewer.verdicts != []) ==>
              !Coherent(o, r)
    ensures r.reviewer.ai && (|r.reviewer.error| > 8192 || (r.reviewer.unavailable && r.reviewer.error == "")) ==>
              !Coherent(o, r)
    ensures r.carried.Some? && (r.phase != Post || r.overridden || r.carried.value.sourcePhase != Pre
                                || r.carried.value.bindings == []) ==>
              !Coherent(o, r)
  {
    hide StructuralBlock, ValidManifest, CleanManifest, WellBound;
    ManifestExactly(o, r.manifest);
    if v, id :| v in r.reviewer.verdicts && id in v.guidance
                && forall f :: f in r.findings && f.source == Deterministic ==> o.findingId(f) != id {
      assert !NamesFinding(o, r.findings, id);
    }
  }

  /** A carried binding names one deterministic finding, of its own path, that is
      neither a hard block nor about coverage, and the hash of that manifest entry. */
  lemma BindingsAreChecked(o: Oracles, r: Report, i: nat) returns (f: Finding, k: nat)
    requires Coherent(o, r) && r.carried.Some? && i < |r.carried.value.bindings|
    ensures var b := r.carried.value.bindings[i];
            && f in r.findings && f.source == Deterministic && !f.hardBlock && f.category != "coverage"
            && o.findingId(f) == b.findingId && f.file == b.path
            && k < |r.manifest| && r.manifest[k].path == b.path && o.entryHash(r.manifest[k]) == b.entryHash
            && forall j :: 0 <= j < |r.carried.value.bindings| && j != i ==>
                 r.carried.value.bindings[j].findingId != b.findingId
  {
    hide StructuralBlock, ValidManifest, GuidanceBound, ReviewerFits;
    var bindings := r.carried.value.bindings;
    var b := bindings[i];
    assert b in bindings && Bound(o, b, r.findings, r.manifest);
    f :| f in r.findings && f.source.Deterministic? && o.findingId(f) == b.findingId && f.file == b.path
         && !f.hardBlock && f.category != "coverage";
    var q :| q in r.manifest && q.path == b.path && o.entryHash(q) == b.entryHash;
    k :| 0 <= k < |r.manifest| && r.manifest[k] == q;
    assert forall m, n :: 0 <= m < n < |bindings| ==> bindings[m].findingId != bindings[n].findingId;
  }

  // ---------------------------------------------------------------- live markers

  /** A marker leads to a report exactly when it allows, agrees with the report it
      names in package, content, policy and decision, belongs to this root, phase,
      policy and transaction, and that transaction lives. */
  lemma LiveExactly(markers: map<Slot, Marker>, reports: map<string, Report>, slot: Slot, fingerprint: string,
                    alive: bool, r: Report)
    ensures LoadLive(markers, reports, slot, fingerprint, alive) == Some(r) <==>
            && alive && slot in markers
            && var m := markers[slot];
               && m.root == slot.root && m.phase == slot.phase && m.transaction == slot.transaction && m.allows
               && m.reportId in reports && reports[m.reportId] == r
               && r.packageBase == m.packageBase && r.contentHash == m.contentHash && r.fingerprint == m.fingerprint
               && r.allows && r.disposition == m.disposition && r.transaction == slot.transaction
               && r.fingerprint == fingerprint
  {
  }

  /** The marker written for a stored report leads back to it, while its transaction
      lives and the policy is the same, exactly when the report allows. */
  lemma WrittenMarkerLeadsBack(markers: map<Slot, Marker>, reports: map<string, Report>, root: string, phase: Phase,
                               r: Report)
    requires r.id in reports && reports[r.id] == r
    ensures var slot := Slot(root, phase, r.transaction);
            LoadLive(markers[slot := MarkerFor(root, phase, r)], reports, slot, r.fingerprint, true) ==
            if r.allows then Some(r) else None
  {
  }
}
