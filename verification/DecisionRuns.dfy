/** Runs of the decision protocol in which every report saved is one that evaluation
    built: internal/audit/policy.go 354-521 between the steps of approvals.go and
    build.go. */
module DecisionRuns {
  import opened Text
  import opened DecisionPolicy
  import opened DecisionProtocol
  import ReportCoherence

  function WantOf(s: Service, scan: Scan): Grant {
    Grant(scan.packageBase, scan.phase, scan.inv.manifestHash, s.fingerprint)
  }

  /** Evaluation built `r`, and had the report of a spent token only when the scan
      had obtained that token's grant. */
  ghost predicate Evaluated(o: Oracles, state: State, s: Service, scan: Scan, r: Report) {
    IsReport(o, s, scan, r) && (scan.stored.Some? ==> state.held[WantOf(s, scan)] > 0)
  }

  ghost predicate EvaluatedStep(o: Oracles, state: State, step: Step) {
    step.Save? ==> exists s, scan :: Evaluated(o, state, s, scan, step.report)
  }

  /** Nothing but evaluation saves reports along the run. */
  ghost predicate EvaluatedRun(h: Hashes, o: Oracles, state: State, steps: seq<Step>)
    decreases |steps|
  {
    steps == [] ||
    (&& EvaluatedStep(o, state, steps[0])
     && (Apply(h, state, steps[0]).Some? ==> EvaluatedRun(h, o, Apply(h, state, steps[0]).value, steps[1..])))
  }

  /** A report that evaluation built is never refused for want of a grant. */
  lemma EvaluatedSavesPass(h: Hashes, o: Oracles, state: State, s: Service, scan: Scan, r: Report)
    requires Evaluated(o, state, s, scan, r)
    ensures r.overridden ==> GrantOf(r) == WantOf(s, scan) && state.held[GrantOf(r)] > 0
    ensures Apply(h, state, Save(r)).Some? <==> r.id !in state.built && DecisionProtocol.Bound(h, r)
  {
    Identity(o, s, scan, r);
  }

  lemma Identity(o: Oracles, s: Service, scan: Scan, r: Report)
    requires IsReport(o, s, scan, r)
    ensures GrantOf(r) == WantOf(s, scan) && r.transaction == scan.transaction
    ensures r.overridden ==> scan.stored.Some?
    ensures r.approvalEligible ==> !r.allows
  {
    hide Merged, VerdictsUsed, ErrorAfter, Marked, Allows, CarriedBy, StructuralBlock, PromptInjection;
  }

  // ---------------------------------------------------------------- counting overridden reports

  function OverriddenFor(built: map<string, Report>, g: Grant): set<string> {
    set id | id in built && built[id].overridden && GrantOf(built[id]) == g
  }

  ghost predicate OverridesCounted(s: State) {
    forall g: Grant :: |OverriddenFor(s.built, g)| == s.overrides[g]
  }

  lemma OneMoreBuilt(built: map<string, Report>, r: Report, g: Grant)
    requires r.id !in built
    ensures |OverriddenFor(built[r.id := r], g)| ==
            |OverriddenFor(built, g)| + if r.overridden && GrantOf(r) == g then 1 else 0
  {
    hide GrantOf;
    var more := built[r.id := r];
    forall id | id != r.id ensures id in OverriddenFor(more, g) <==> id in OverriddenFor(built, g) {
      assert id in built ==> more[id] == built[id];
    }
    var before, after := OverriddenFor(built, g), OverriddenFor(more, g);
    hide OverriddenFor;
    if r.overridden && GrantOf(r) == g {
      assert after == before + {r.id};
    } else {
      assert after == before;
    }
  }

  lemma StepCountsOverrides(h: Hashes, s: State, step: Step, t: State)
    requires OverridesCounted(s) && Apply(h, s, step) == Some(t)
    ensures OverridesCounted(t)
  {
    hide Apply, OverriddenFor, GrantOf, DecisionProtocol.Bound;
    Frame(h, s, step, t);
    if step.Save? {
      SaveStep(h, s, step.report, t);
      forall g: Grant ensures |OverriddenFor(t.built, g)| == t.overrides[g] {
        OneMoreBuilt(s.built, step.report, g);
      }
    }
  }

  lemma {:induction false} RunCountsOverrides(h: Hashes, s: State, steps: seq<Step>, t: State)
    requires OverridesCounted(s) && Run(h, s, steps) == Some(t)
    ensures OverridesCounted(t)
    decreases |steps|
  {
    hide OverridesCounted, Apply;
    if steps != [] {
      var next := Apply(h, s, steps[0]).value;
      StepCountsOverrides(h, s, steps[0], next);
      RunCountsOverrides(h, next, steps[1..], t);
    }
  }

  lemma NoneOverridden(trees: map<Slot, seq<Record>>, live: set<string>)
    ensures OverridesCounted(Initial(trees, live))
  {
    forall g: Grant ensures OverriddenFor(map[], g) == {} {
    }
  }

  /** However the processes interleave, at most as many reports are overridden, of
      all that were ever saved for a grant, as tokens for it were spent. */
  lemma OverriddenReportsArePaid(h: Hashes, trees: map<Slot, seq<Record>>, live: set<string>, steps: seq<Step>,
                                 s: State, g: Grant)
    requires Run(h, Initial(trees, live), steps) == Some(s)
    ensures |OverriddenFor(s.built, g)| <= s.spent[g] <= s.created[g]
  {
    hide Run, Apply, OverriddenFor, PendingFor;
    NoneOverridden(trees, live);
    RunCountsOverrides(h, Initial(trees, live), steps, s);
    ApprovalsAreOneTime(h, trees, live, steps, s, g);
  }

  // ---------------------------------------------------------------- what a started phase rests on

  ghost predicate FromEvaluation(o: Oracles, r: Report) {
    exists s, scan :: IsReport(o, s, scan, r)
  }

  ghost predicate AllEvaluated(o: Oracles, state: State) {
    forall id :: id in state.built ==> FromEvaluation(o, state.built[id])
  }

  lemma StepStaysEvaluated(h: Hashes, o: Oracles, s: State, step: Step, t: State)
    requires AllEvaluated(o, s) && EvaluatedStep(o, s, step) && Apply(h, s, step) == Some(t)
    ensures AllEvaluated(o, t)
  {
    hide Apply, IsReport, DecisionProtocol.Bound, GrantOf;
    Frame(h, s, step, t);
    if step.Save? {
      SaveStep(h, s, step.report, t);
      var v, scan :| Evaluated(o, s, v, scan, step.report);
      assert FromEvaluation(o, step.report);
    }
  }

  lemma {:induction false} RunStaysEvaluated(h: Hashes, o: Oracles, s: State, steps: seq<Step>, t: State)
    requires AllEvaluated(o, s) && EvaluatedRun(h, o, s, steps) && Run(h, s, steps) == Some(t)
    ensures AllEvaluated(o, t)
    decreases |steps|
  {
    hide AllEvaluated, EvaluatedStep, Apply;
    if steps != [] {
      var next := Apply(h, s, steps[0]).value;
      StepStaysEvaluated(h, o, s, steps[0], next);
      RunStaysEvaluated(h, o, next, steps[1..], t);
    }
  }

  /** The deterministic pass allowed: everything was covered, nothing is a hard
      block and each finding at the threshold of the policy was settled before. */
  ghost predicate DecidedByRules(o: Oracles, s: Service, scan: Scan, r: Report) {
    && IsReport(o, s, scan, r) && r.complete && s.fingerprint == r.fingerprint
    && forall f :: f in Marked(scan.inv.findings) ==>
         !f.hardBlock && (AtLeast(f.severity, s.minimumSeverity) ==> o.findingId(f) in CarriedIds(r.carried))
  }

  /** Evaluation blocked `a`, it was open to approval, and a token for it was spent. */
  ghost predicate ApprovedBy(o: Oracles, state: State, b: Report, a: Report) {
    && a.id in state.built && state.built[a.id] == a && FromEvaluation(o, a)
    && !a.allows && a.approvalEligible && GrantOf(a) == GrantOf(b) && state.spent[GrantOf(b)] > 0
  }

  /** Every phase that started rests on a report that evaluation built, in its own
      transaction, under its own policy and for the tree it was bound to; and that
      was allowed by the rules alone or by a spent approval of a blocked report of
      the same package, phase, content and policy. */
  lemma StartsAreDecided(h: Hashes, o: Oracles, trees: map<Slot, seq<Record>>, live: set<string>, steps: seq<Step>,
                         s: State, e: Start)
    returns (b: Report)
    requires Injective(h) && Run(h, Initial(trees, live), steps) == Some(s) && e in s.starts
    requires EvaluatedRun(h, o, Initial(trees, live), steps)
    ensures b.id in s.built && s.built[b.id] == b && b.allows
    ensures b.transaction == e.loaded.slot.transaction && b.fingerprint == e.loaded.fingerprint
    ensures h.binding(e.tree) == h.binding(b.manifest)
    ensures !b.overridden ==> exists v, scan :: DecidedByRules(o, v, scan, b)
    ensures b.overridden ==> exists a :: ApprovedBy(o, s, b, a)
  {
    hide Run, Apply, EvaluatedRun, IsReport, OverriddenFor, PendingFor, Injective, LastWrite, NoWrite, MarkerFor,
         Initial;
    b := StartsAreAuthorized(h, trees, live, steps, s, e);
    NothingBuilt(o, trees, live);
    RunStaysEvaluated(h, o, Initial(trees, live), steps, s);
    if b.overridden {
      var a := ApprovalBehind(h, o, trees, live, steps, s, b);
    } else {
      var v, scan :| IsReport(o, v, scan, b);
      RulesDecide(o, v, scan, b);
    }
  }

  lemma NothingBuilt(o: Oracles, trees: map<Slot, seq<Record>>, live: set<string>)
    ensures AllEvaluated(o, Initial(trees, live))
  {
  }

  lemma RulesDecide(o: Oracles, s: Service, scan: Scan, r: Report)
    requires IsReport(o, s, scan, r) && r.allows && !r.overridden
    ensures DecidedByRules(o, s, scan, r)
  {
    hide IsReport, Marked, CarriedIds;
    ReportCoherence.AllowedMeansDecided(o, s, scan, r);
    Identity(o, s, scan, r);
  }

  lemma ApprovalBehind(h: Hashes, o: Oracles, trees: map<Slot, seq<Record>>, live: set<string>, steps: seq<Step>,
                       s: State, b: Report)
    returns (a: Report)
    requires Run(h, Initial(trees, live), steps) == Some(s) && AllEvaluated(o, s)
    requires b.id in s.built && s.built[b.id] == b && b.overridden
    ensures ApprovedBy(o, s, b, a)
  {
    hide Run, Apply, IsReport, PendingFor, GrantOf, Initial;
    var g := GrantOf(b);
    OverriddenReportsArePaid(h, trees, live, steps, s, g);
    assert b.id in OverriddenFor(s.built, g);
    ApprovalsAreOneTime(h, trees, live, steps, s, g);
    InitiallyInv(h, trees, live);
    RunKeepsInv(h, Initial(trees, live), steps, s);
    var id :| Approved(s.built, id) && GrantOf(s.built[id]) == g;
    a := s.built[id];
    var v, scan :| IsReport(o, v, scan, a);
    Identity(o, v, scan, a);
  }

  // ---------------------------------------------------------------- starting a phase

  lemma {:induction false} RunAppend(h: Hashes, s: State, a: seq<Step>, b: seq<Step>)
    ensures Run(h, s, a + b) == if Run(h, s, a).None? then None else Run(h, Run(h, s, a).value, b)
    decreases |a|
  {
    hide Apply;
    if a == [] {
      assert a + b == b;
    } else {
      assert (a + b)[0] == a[0] && (a + b)[1..] == a[1..] + b;
      RunUnfolds(h, s, a + b);
      if Apply(h, s, a[0]).Some? {
        RunAppend(h, Apply(h, s, a[0]).value, a[1..], b);
      }
    }
  }

  /** Undisturbed, a phase starts exactly when the report of a live marker can be
      loaded and its manifest binds the tree as it is. */
  lemma StartIsARun(h: Hashes, s: State, p: int, slot: Slot, fingerprint: string)
    ensures var live := LoadLive(s.markers, s.reports, slot, fingerprint, slot.transaction in s.live);
            Run(h, s, [ReadMarker(p, slot, fingerprint), ReadReport(p), CheckLive(p)] + [Bind(p)]) ==
            if live.None? || slot !in s.trees || h.binding(s.trees[slot]) != h.binding(live.value.manifest) then None
            else
              var start := Start(Loaded(slot, fingerprint, live.value, |s.log|), |s.log|, s.trees[slot]);
              Some(s.(starters := s.starters - {p}, starts := s.starts + [start]))
  {
    hide Run, Apply, LoadLive;
    var live := LoadLive(s.markers, s.reports, slot, fingerprint, slot.transaction in s.live);
    LoadIsARun(h, s, p, slot, fingerprint);
    RunAppend(h, s, [ReadMarker(p, slot, fingerprint), ReadReport(p), CheckLive(p)], [Bind(p)]);
    if live.Some? {
      var l := Loaded(slot, fingerprint, live.value, |s.log|);
      var ready := s.(starters := s.starters[p := Ready(l)]);
      RunUnfolds(h, ready, [Bind(p)]);
      assert [Bind(p)][1..] == [];
      BindingStep(h, s, p, l);
      if Apply(h, ready, Bind(p)).Some? {
        RunEnds(h, Apply(h, ready, Bind(p)).value);
      }
    }
  }

  lemma BindingStep(h: Hashes, s: State, p: int, l: Loaded)
    ensures Apply(h, s.(starters := s.starters[p := Ready(l)]), Bind(p)) ==
            if l.slot !in s.trees || h.binding(s.trees[l.slot]) != h.binding(l.report.manifest) then None
            else Some(s.(starters := s.starters - {p}, starts := s.starts + [Start(l, |s.log|, s.trees[l.slot])]))
  {
    assert s.starters[p := Ready(l)] - {p} == s.starters - {p};
  }
}
