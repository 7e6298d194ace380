/** The cross-field part of Report.Validate (internal/audit/reports.go 156-316),
    which reports that evaluation builds it accepts, and what an allowed report
    means. */
module ReportCoherence {
  import opened Text
  import opened DecisionPolicy

  // ---------------------------------------------------------------- Report.Validate

  /** Provenance: a deterministic-only report shows no trace of a reviewer, and a
      report about an absent provider says what went wrong. */
  predicate ReviewerFits(r: Reviewer) {
    if r.ai then |r.error| <= 8192 && (r.unavailable ==> r.error != "")
    else !r.unavailable && r.error == "" && !r.onDemand && r.verdicts == []
  }

  ghost predicate CarriedFits(o: Oracles, r: Report) {
    r.carried.Some? ==>
      var c := r.carried.value;
      && r.phase.Post? && !r.overridden && c.sourcePhase.Pre? && c.sourceHash != "" && o.names(c.sourceId, c.sourceHash)
      && c.bindings != [] && WellBound(o, c.bindings, r.findings, r.manifest)
  }

  predicate NamesFinding(o: Oracles, findings: seq<Finding>, id: string) {
    exists f :: f in findings && f.source.Deterministic? && o.findingId(f) == id
  }

  ghost predicate GuidanceBound(o: Oracles, findings: seq<Finding>, verdicts: seq<Verdict>) {
    forall v, id :: v in verdicts && id in v.guidance ==> NamesFinding(o, findings, id)
  }

  ghost predicate Coherent(o: Oracles, r: Report) {
    && ReviewerFits(r.reviewer)
    && r.contentHash != "" && o.names(r.id, r.contentHash)
    && ValidManifest(o, r.manifest) && o.contentHash(r.manifest) == r.contentHash
    && CarriedFits(o, r)
    && GuidanceBound(o, r.findings, r.reviewer.verdicts)
    && (r.approvalEligible ==>
          !StructuralBlock(r.findings, r.complete) && !PromptInjection(r.reviewer.verdicts) && !r.allows)
    && (r.overridden <==> r.disposition.Override?)
    && (r.networkEligible <==> r.allows && r.phase.Post? && r.contentHash != "")
  }

  method Validate(o: Oracles, r: Report) returns (ok: bool)
    requires Sound(o)
    ensures ok <==> Coherent(o, r)
  {
    hide StructuralBlock, PromptInjection, ValidManifest, WellBound, GuidanceBound, ReviewerFits;
    if r.contentHash == "" || !o.names(r.id, r.contentHash) || !ReviewerFits(r.reviewer) {
      return false;
    }
    var hashes := ManifestEntryHashes(o, r.manifest);
    if hashes.None? || o.contentHash(r.manifest) != r.contentHash {
      return false;
    }
    var deterministic := DeterministicFindings(o, r.findings);
    if r.carried.Some? {
      var c := r.carried.value;
      if !r.phase.Post? || r.overridden || !c.sourcePhase.Pre? || c.sourceHash == ""
          || !o.names(c.sourceId, c.sourceHash) || c.bindings == [] {
        return false;
      }
      var bound := BindingsHold(o, c.bindings, r.findings, r.manifest, deterministic, hashes.value);
      if !bound {
        return false;
      }
    }
    var guided := GuidanceHolds(o, r.findings, r.reviewer.verdicts, deterministic);
    if !guided {
      return false;
    }
    var structural := FindStructuralBlock(r.findings, r.complete);
    var injected := HasPromptInjection(r.reviewer.verdicts);
    if r.approvalEligible && (r.contentHash == "" || structural || injected) {
      return false;
    }
    if r.approvalEligible && r.allows {
      return false;
    }
    if r.overridden != r.disposition.Override? {
      return false;
    }
    return r.networkEligible == (r.allows && r.phase.Post? && r.contentHash != "");
  }

  ghost predicate FindingsById(o: Oracles, findings: seq<Finding>, byId: map<string, Finding>) {
    && (forall f :: f in findings && f.source.Deterministic? ==> o.findingId(f) in byId)
    && (forall id :: id in byId ==>
         byId[id] in findings && byId[id].source.Deterministic? && o.findingId(byId[id]) == id)
  }

  method DeterministicFindings(o: Oracles, findings: seq<Finding>) returns (byId: map<string, Finding>)
    ensures FindingsById(o, findings, byId)
  {
    byId := map[];
    for i := 0 to |findings|
      invariant FindingsById(o, findings[..i], byId)
    {
      assert findings[..i + 1] == findings[..i] + [findings[i]];
      if findings[i].source.Deterministic? {
        byId := byId[o.findingId(findings[i]) := findings[i]];
      }
    }
    assert findings[..|findings|] == findings;
  }

  method BindingsHold(o: Oracles, bindings: seq<Binding>, findings: seq<Finding>, manifest: seq<Record>,
                      byId: map<string, Finding>, hashes: map<string, string>) returns (ok: bool)
    requires Sound(o) && FindingsById(o, findings, byId) && HashesAre(o, manifest, hashes) && ValidManifest(o, manifest)
    ensures ok <==> WellBound(o, bindings, findings, manifest)
  {
    hide ValidManifest, HashesAre, Bound, FindingsById;
    var seen: set<string> := {};
    for i := 0 to |bindings|
      invariant seen == IdsOf(bindings[..i]) && WellBound(o, bindings[..i], findings, manifest)
    {
      var b := bindings[i];
      BindingHolds(o, b, findings, manifest, byId, hashes);
      assert bindings[..i + 1] == bindings[..i] + [b];
      if b.findingId !in byId || b.findingId in seen
         || b.path != byId[b.findingId].file || byId[b.findingId].hardBlock || byId[b.findingId].category == "coverage"
         || b.path !in hashes || hashes[b.path] != b.entryHash {
        if b.findingId in seen {
          Repeated(bindings, i);
        } else {
          assert b in bindings;
        }
        return false;
      }
      seen := seen + {b.findingId};
      NotRepeated(bindings, i);
    }
    assert bindings[..|bindings|] == bindings;
    return true;
  }

  lemma Repeated(bindings: seq<Binding>, i: nat)
    requires i < |bindings| && bindings[i].findingId in IdsOf(bindings[..i])
    ensures !DistinctIds(bindings)
  {
    var b :| b in bindings[..i] && b.findingId == bindings[i].findingId;
    var j :| 0 <= j < i && bindings[j] == b;
    assert bindings[j].findingId == bindings[i].findingId;
  }

  lemma NotRepeated(bindings: seq<Binding>, i: nat)
    requires i < |bindings| && bindings[i].findingId !in IdsOf(bindings[..i]) && DistinctIds(bindings[..i])
    ensures DistinctIds(bindings[..i + 1])
    ensures IdsOf(bindings[..i + 1]) == IdsOf(bindings[..i]) + {bindings[i].findingId}
  {
    var some, all := bindings[..i], bindings[..i + 1];
    assert all == some + [bindings[i]];
    forall j, k | 0 <= j < k < |all| ensures all[j].findingId != all[k].findingId {
      if k == i {
        assert some[j] in some;
      } else {
        assert some[j].findingId != some[k].findingId;
      }
    }
    forall id | id in IdsOf(some) ensures id in IdsOf(all) {
      var b :| b in some && b.findingId == id;
      assert b in all;
    }
    assert bindings[i] in all;
  }

  lemma BindingHolds(o: Oracles, b: Binding, findings: seq<Finding>, manifest: seq<Record>,
                     byId: map<string, Finding>, hashes: map<string, string>)
    requires Sound(o) && FindingsById(o, findings, byId) && HashesAre(o, manifest, hashes) && ValidManifest(o, manifest)
    ensures Bound(o, b, findings, manifest) <==>
            && b.findingId in byId && b.path == byId[b.findingId].file && !byId[b.findingId].hardBlock
            && byId[b.findingId].category != "coverage" && b.path in hashes && hashes[b.path] == b.entryHash
  {
    if b.path in hashes {
      assert EntryIs(o, manifest, b.path, hashes[b.path]);
      if EntryIs(o, manifest, b.path, b.entryHash) {
        EntryIsUnique(o, manifest, b.path, b.entryHash, hashes[b.path]);
      }
    }
  }

  method GuidanceHolds(o: Oracles, findings: seq<Finding>, verdicts: seq<Verdict>, byId: map<string, Finding>)
    returns (ok: bool)
    requires FindingsById(o, findings, byId)
    ensures ok <==> GuidanceBound(o, findings, verdicts)
  {
    hide FindingsById;
    for i := 0 to |verdicts|
      invariant GuidanceBound(o, findings, verdicts[..i])
    {
      var guidance := verdicts[i].guidance;
      assert verdicts[..i + 1] == verdicts[..i] + [verdicts[i]];
      for j := 0 to |guidance|
        invariant forall id :: id in guidance[..j] ==> NamesFinding(o, findings, id)
      {
        InMap(o, findings, byId, guidance[j]);
        if guidance[j] !in byId {
          assert verdicts[i] in verdicts && guidance[j] in verdicts[i].guidance;
          return false;
        }
      }
      assert guidance[..|guidance|] == guidance;
    }
    assert verdicts[..|verdicts|] == verdicts;
    return true;
  }

  lemma InMap(o: Oracles, findings: seq<Finding>, byId: map<string, Finding>, id: string)
    requires FindingsById(o, findings, byId)
    ensures id in byId <==> NamesFinding(o, findings, id)
  {
  }

  // ---------------------------------------------------------------- which reports are accepted

  predicate Commits(o: Oracles, inv: Inventory) {
    inv.manifestHash != "" && ValidManifest(o, inv.manifest) && o.contentHash(inv.manifest) == inv.manifestHash
  }

  ghost predicate CarryFits(o: Oracles, c: Carried, findings: seq<Finding>, manifest: seq<Record>) {
    && c.sourcePhase.Pre? && c.sourceHash != "" && o.names(c.sourceId, c.sourceHash)
    && c.bindings != [] && WellBound(o, c.bindings, findings, manifest)
  }

  /** A decision carried from a stored report meets what validation asks of it. */
  lemma CarriedDecisionFits(o: Oracles, carried: Option<Carried>, live: Option<Report>, packageBase: string,
                            inv: Inventory, minimum: string)
    requires CarriesSettled(o, carried, live, packageBase, inv, minimum) && carried.Some?
    requires live.Some? ==> Coherent(o, live.value)
    ensures CarryFits(o, carried.value, inv.findings, inv.manifest)
  {
    hide StructuralBlock, PromptInjection, WellBound, ValidManifest, GuidanceBound;
  }

  /** What the program establishes before it evaluates a scan: where the service,
      the carried decision, the authorizing report and the verdicts come from.
      Content hash and fingerprint commit to the mode, to the provider and,
      through the snapshot, to the deterministic findings. */
  ghost predicate Prepared(o: Oracles, s: Service, scan: Scan) {
    var own := Marked(scan.inv.findings);
    && Built(s) && o.names(scan.id, scan.inv.manifestHash)
    && (scan.carried.Some? ==> scan.phase.Post? && CarryFits(o, scan.carried.value, own, scan.inv.manifest))
    && (scan.stored.Some? && Authorizes(scan.stored.value, s, scan) ==>
          var source := scan.stored.value;
          && Coherent(o, source) && source.reviewer.ai == s.ai && source.reviewer.unavailable == s.unavailable
          && forall f :: f in source.findings && f.source.Deterministic? ==> f in own)
    && (scan.review.Returned? ==> GuidanceBound(o, own, scan.review.verdicts))
  }

  /** Deterministic-only mode has no place for an error text or a forced review. */
  predicate ModeFits(s: Service, scan: Scan) {
    s.ai || (!scan.forceAi && (Overridden(scan) || TrimSpace(s.coverageError) == ""))
  }

  predicate EscapeSaid(verdicts: seq<Verdict>) {
    exists v, f :: v in verdicts && f in v.findings && Escapes(f.category, f.rationale)
  }

  /** The store accepts what evaluation built if and only if the inventory commits
      to its manifest, the mode allows the report, and no model finding turns a
      report that is open to approval into a structural one. */
  lemma AcceptedExactly(o: Oracles, s: Service, scan: Scan, r: Report)
    requires Sound(o) && Prepared(o, s, scan) && IsReport(o, s, scan, r)
    ensures Coherent(o, r) <==>
            Commits(o, scan.inv) && ModeFits(s, scan) && !(Eligible(o, s, scan) && EscapeSaid(VerdictsUsed(s, scan)))
  {
    hide Merged, StructuralBlock, ValidManifest, WellBound, GuidanceBound, ReviewerFits, Prepared, VerdictsUsed,
         ErrorAfter, Marked, Allows, PromptInjection, Overridden, Authorizes, EscapeSaid;
    ReviewerPart(o, s, scan);
    CarriedPart(o, s, scan, r);
    GuidancePart(o, s, scan, r);
    if Eligible(o, s, scan) {
      StructuralPart(o, s, scan, r);
    }
    PreparedNames(o, s, scan);
  }

  lemma PreparedNames(o: Oracles, s: Service, scan: Scan)
    requires Prepared(o, s, scan)
    ensures o.names(scan.id, scan.inv.manifestHash)
  {
  }

  lemma JoinIsEmpty(a: string, b: string)
    ensures Join(a, b) == "" <==> TrimSpace(a) == "" && TrimSpace(b) == ""
  {
  }

  lemma ReviewerPart(o: Oracles, s: Service, scan: Scan)
    requires Prepared(o, s, scan) && (Overridden(scan) ==> Authorizes(scan.stored.value, s, scan))
    ensures ReviewerFits(Reviewer(s.ai, s.unavailable, ErrorAfter(s, scan), scan.forceAi, VerdictsUsed(s, scan))) <==>
              ModeFits(s, scan)
  {
    hide Join, TrimSpace, WellBound, GuidanceBound, StructuralBlock, ValidManifest;
    JoinIsEmpty(s.initializationError, s.coverageError);
    assert TrimSpace("") == "" by { TrimNothing(); }
  }

  lemma TrimNothing()
    ensures TrimSpace("") == ""
  {
  }

  /** The report shows the deterministic findings and the merged ones. */
  lemma ShownFindings(o: Oracles, s: Service, scan: Scan, r: Report) returns (merged: seq<Finding>)
    requires Sound(o) && IsReport(o, s, scan, r)
    ensures Merged(Marked(scan.inv.findings), VerdictsUsed(s, scan), merged)
    ensures forall f :: f in r.findings <==> f in Marked(scan.inv.findings) || f in merged
  {
    hide Merged, Marked, VerdictsUsed, ErrorAfter, Allows, Overridden, Authorizes, Eligible, CarriedBy;
    var own := Marked(scan.inv.findings);
    merged :| Merged(own, VerdictsUsed(s, scan), merged) && r.findings == o.arrange(own + merged);
    assert multiset(r.findings) == multiset(own + merged);
    forall f ensures f in r.findings <==> f in own || f in merged {
      assert f in r.findings <==> f in multiset(r.findings);
      assert f in own + merged <==> f in multiset(own + merged);
    }
  }

  lemma CarriedPart(o: Oracles, s: Service, scan: Scan, r: Report)
    requires Sound(o) && Prepared(o, s, scan) && IsReport(o, s, scan, r)
    ensures CarriedFits(o, r)
  {
    hide Merged, ValidManifest, GuidanceBound, Allows, VerdictsUsed, ErrorAfter, StructuralBlock, Eligible, Coherent,
         EntryIs;
    var merged := ShownFindings(o, s, scan, r);
  }

  lemma GuidancePart(o: Oracles, s: Service, scan: Scan, r: Report)
    requires Sound(o) && Prepared(o, s, scan) && IsReport(o, s, scan, r)
    ensures GuidanceBound(o, r.findings, VerdictsUsed(s, scan))
  {
    hide Merged, ValidManifest, WellBound, Allows, ErrorAfter, StructuralBlock, Eligible, Asks, CarriedFits,
         ReviewerFits, PromptInjection;
    var merged := ShownFindings(o, s, scan, r);
    forall v, id | v in VerdictsUsed(s, scan) && id in v.guidance ensures NamesFinding(o, r.findings, id) {
      if Overridden(scan) {
        assert NamesFinding(o, scan.stored.value.findings, id);
      } else {
        assert NamesFinding(o, Marked(scan.inv.findings), id);
      }
    }
  }

  lemma StructuralPart(o: Oracles, s: Service, scan: Scan, r: Report)
    requires Sound(o) && IsReport(o, s, scan, r) && Eligible(o, s, scan)
    ensures StructuralBlock(r.findings, r.complete) <==> EscapeSaid(VerdictsUsed(s, scan))
  {
    hide VerdictsUsed, Allows, Escapes, Marked, ErrorAfter, CarriedBy, PromptInjection, ReviewerFits, Overridden,
         Authorizes, HasPrefix;
    var own, verdicts := Marked(scan.inv.findings), VerdictsUsed(s, scan);
    var merged := ShownFindings(o, s, scan, r);
    MergedEscapes(own, verdicts, merged);
  }

  /** Merging drops no escape: content that a deterministic finding already shows
      would make that finding structural too. */
  lemma MergedEscapes(own: seq<Finding>, verdicts: seq<Verdict>, merged: seq<Finding>)
    requires Merged(own, verdicts, merged) && forall f :: f in own ==> !Structural(f)
    ensures (exists f :: f in merged && Structural(f)) <==> EscapeSaid(verdicts)
  {
    hide Escapes, HasPrefix;
    RuleOfModel();
    if f :| f in merged && Structural(f) {
      var v :| v in verdicts && Says(v, f);
      var m :| m in v.findings && FromModel(m) == f;
      assert Escapes(m.category, m.rationale);
    }
    if EscapeSaid(verdicts) {
      var v, m :| v in verdicts && m in v.findings && Escapes(m.category, m.rationale);
      var f := FromModel(m);
      assert Says(v, f) && SomeoneSays(verdicts, f);
      var g :| g in own + merged && KeyOf(g) == KeyOf(f);
      assert Escapes(g.category, g.rationale) && Structural(g);
      assert g in merged;
    }
  }

  lemma RuleOfModel()
    ensures "ai-review" !in STRUCTURAL_RULES
  {
  }

  // ---------------------------------------------------------------- rejected reports

  const HIGH := Finding(Deterministic, "high", "network", "PKGBUILD", None, "curl", "downloads at build time",
    "network-fetch", false)
  const ESCAPE := Verdict(false, "high", false,
    [ReviewFinding("high", "archive_escape", "a.tar", None, "..", "leaves the tree")], [], [])

  function OneFinding(o: Oracles): Inventory {
    Inventory([HIGH], true, [], o.contentHash([]))
  }

  function FirstScan(o: Oracles, id: string, review: Review, forceAi: bool): Scan {
    Scan("pkg", Pre, OneFinding(o), None, None, review, forceAi, id, "tx")
  }

  function Reviewing(ai: bool, coverageError: string): Service {
    Service(ai, false, "high", "medium", {Pre}, "fp", "", coverageError)
  }

  /** The provider answers with a finding of category archive_escape: the report
      that evaluation builds is one that the store refuses to save. */
  lemma ModelEscapeIsRefused(o: Oracles, id: string, r: Report)
    requires Sound(o) && o.names(id, o.contentHash([]))
    requires IsReport(o, Reviewing(true, ""), FirstScan(o, id, Returned(true, [ESCAPE]), false), r)
    ensures !Coherent(o, r)
  {
    var s, scan := Reviewing(true, ""), FirstScan(o, id, Returned(true, [ESCAPE]), false);
    if o.contentHash([]) != "" {
      AcceptedExactly(o, s, scan, r);
      JoinIsEmpty("", "");
      TrimNothing();
      HighBlocks(o, scan);
      assert ESCAPE.findings[0] in ESCAPE.findings && ESCAPE in VerdictsUsed(s, scan);
      assert Escapes("archive_escape", "leaves the tree");
    }
  }

  lemma HighBlocks(o: Oracles, scan: Scan)
    requires scan.inv.findings == [HIGH] && scan.inv.complete && scan.carried.None?
    ensures DecisionBlock(o, Marked(scan.inv.findings), "high", {})
    ensures !StructuralBlock(Marked(scan.inv.findings), true) && !HardBlock(Marked(scan.inv.findings))
  {
    var own := Marked(scan.inv.findings);
    assert own[0] == HIGH && own == [HIGH] && HIGH in own;
    assert !HasPrefix("downloads at build time", "TOCTOU");
  }

  /** In deterministic-only mode neither a missing archive probe nor a review on
      demand leads to a report that the store accepts. */
  lemma DeterministicModeRefuses(o: Oracles, id: string, coverageError: string, forceAi: bool, r: Report)
    requires Sound(o) && o.names(id, o.contentHash([])) && (TrimSpace(coverageError) != "" || forceAi)
    requires IsReport(o, Reviewing(false, coverageError), FirstScan(o, id, Failed(""), forceAi), r)
    ensures !Coherent(o, r)
  {
    AcceptedExactly(o, Reviewing(false, coverageError), FirstScan(o, id, Failed(""), forceAi), r);
  }

  // ---------------------------------------------------------------- what an allowed report means

  /** Nothing is allowed but by a spent approval of this very content or by the
      deterministic pass. */
  lemma AllowedMeansDecided(o: Oracles, s: Service, scan: Scan, r: Report)
    requires IsReport(o, s, scan, r) && r.allows
    ensures r.overridden ==>
              && scan.stored.Some? && scan.stored.value.approvalEligible
              && scan.stored.value.packageBase == r.packageBase && scan.stored.value.phase == r.phase
              && scan.stored.value.contentHash == r.contentHash && scan.stored.value.fingerprint == r.fingerprint
              && !StructuralBlock(Marked(scan.inv.findings), r.complete)
    ensures !r.overridden ==>
              && r.complete
              && forall f :: f in Marked(scan.inv.findings) ==>
                   !f.hardBlock && (AtLeast(f.severity, s.minimumSeverity) ==> o.findingId(f) in CarriedIds(r.carried))
  {
    hide Merged, StructuralBlock, VerdictsUsed, ErrorAfter, Marked, PromptInjection, ModelBlocks, Eligible;
  }

  /** The provider can only take an allow away; when it contributes no verdict,
      decision and eligibility are those of the deterministic-only mode. */
  lemma ModelOnlyTightens(o: Oracles, s: Service, scan: Scan)
    ensures Allows(o, s, scan) ==> Allows(o, s.(ai := false), scan)
    ensures Eligible(o, s.(ai := false), scan) && !PromptInjection(VerdictsUsed(s, scan)) ==> Eligible(o, s, scan)
    ensures VerdictsUsed(s, scan) == [] ==>
              && (Allows(o, s, scan) <==> Allows(o, s.(ai := false), scan))
              && (Eligible(o, s, scan) <==> Eligible(o, s.(ai := false), scan))
  {
    hide StructuralBlock, DeterministicAllow, Marked, Asks;
    var alone := s.(ai := false);
    if !Overridden(scan) {
      assert !Asks(alone, scan) && VerdictsUsed(alone, scan) == [] by { NeverAsks(alone, scan); }
    }
  }

  lemma NeverAsks(s: Service, scan: Scan)
    requires !s.ai
    ensures !Asks(s, scan)
  {
  }

  /** Carry-over, exactly: without an approval the deterministic pass allows a post
      scan if and only if coverage is complete, nothing is a hard block, and every
      finding at the threshold was put to the user in the overridden pre report of
      this transaction and policy, over the same manifest entry, and is neither a
      hard block nor a coverage finding. */
  lemma CarryOverIsExact(o: Oracles, s: Service, scan: Scan, r: Report, markers: map<Slot, Marker>,
                         reports: map<string, Report>, root: string, alive: bool)
    requires Sound(o) && IsReport(o, s, scan, r) && !r.overridden && Rank(s.minimumSeverity) != 0
    requires CarriesSettled(o, scan.carried,
               LoadLive(markers, reports, Slot(root, Pre, scan.transaction), s.fingerprint, alive),
                            scan.packageBase, scan.inv.(findings := Marked(scan.inv.findings)), s.minimumSeverity)
    ensures var live := LoadLive(markers, reports, Slot(root, Pre, scan.transaction), s.fingerprint, alive);
            var own := Marked(scan.inv.findings);
            && (r.allows ==> SettledBefore(o, s, scan, live, own))
            && (!s.ai && SettledBefore(o, s, scan, live, own) ==> r.allows)
    ensures var live := LoadLive(markers, reports, Slot(root, Pre, scan.transaction), s.fingerprint, alive);
            live.Some? ==> live.value.transaction == scan.transaction && live.value.fingerprint == s.fingerprint
  {
    hide Merged, StructuralBlock, VerdictsUsed, ErrorAfter, Marked, PromptInjection, ModelBlocks, Eligible, Settled,
         CanCarry, ValidManifest, WellBound, Overridden, Authorizes;
    var live := LoadLive(markers, reports, Slot(root, Pre, scan.transaction), s.fingerprint, alive);
    var own := Marked(scan.inv.findings);
    assert scan.inv.(findings := own).findings == own;
    forall f | f in own && AtLeast(f.severity, s.minimumSeverity)
      ensures o.findingId(f) in CarriedIds(scan.carried) <==> PutToUser(o, s, scan, live, f)
    {
    }
  }

  predicate PutToUser(o: Oracles, s: Service, scan: Scan, live: Option<Report>, f: Finding) {
    && live.Some? && CanCarry(live.value, scan.packageBase)
    && ValidManifest(o, live.value.manifest) && ValidManifest(o, scan.inv.manifest)
    && Settled(o, f, live.value, scan.inv.manifest, s.minimumSeverity)
  }

  predicate SettledBefore(o: Oracles, s: Service, scan: Scan, live: Option<Report>, own: seq<Finding>) {
    && scan.inv.complete && !HardBlock(own)
    && forall f :: f in own && AtLeast(f.severity, s.minimumSeverity) ==> PutToUser(o, s, scan, live, f)
  }
}
