/** What a rule scan returns besides the names of its pattern rules: which scans
    succeed, what they sample, and the findings that no pattern makes
    (internal/brief/rules.go 99-165 and 219-327). */
module RuleScanResults {
  import opened Text
  import opened RuleScan
  import opened RuleScanCoverage
  import opened RuleScanDiffs
  import UnifiedDiff

  // ---------------------------------------------------------------- the cap

  /** The findings of the rule that are not hard. */
  function SoftOf(findings: seq<Finding>, id: string): set<nat> {
    set i: nat | i < |findings| && findings[i].ruleID == id && !findings[i].hard
  }

  lemma {:induction false} CountSoftIsNumber(findings: seq<Finding>, id: string)
    ensures CountSoft(findings, id) == |SoftOf(findings, id)|
  {
    if findings != [] {
      var init, last := findings[..|findings| - 1], findings[|findings| - 1];
      CountSoftIsNumber(init, id);
      var n := |findings| - 1;
      assert SoftOf(findings, id) ==
             if last.ruleID == id && !last.hard then SoftOf(init, id) + {n} else SoftOf(init, id);
    } else {
      assert SoftOf(findings, id) == {};
    }
  }

  /** Of the findings of a rule that are not hard, the capped list has all or three. */
  lemma {:induction false} RepresentativeKeepsThree(findings: seq<Finding>, id: string)
    ensures |SoftOf(Representative(findings), id)| ==
            if |SoftOf(findings, id)| < 3 then |SoftOf(findings, id)| else 3
  {
    CountSoftIsNumber(findings, id);
    CountSoftIsNumber(Representative(findings), id);
    if findings != [] {
      var init, last := findings[..|findings| - 1], findings[|findings| - 1];
      RepresentativeKeepsThree(init, id);
      CountSoftIsNumber(init, id);
      CountSoftIsNumber(Representative(init), id);
      assert (Representative(init) + [last])[..|Representative(init)|] == Representative(init);
    }
  }

  /** Later findings change nothing about earlier ones: the first three stay. */
  lemma {:induction false} RepresentativeExtends(findings: seq<Finding>, more: seq<Finding>)
    ensures Representative(findings) <= Representative(findings + more)
  {
    if more == [] {
      assert findings + more == findings;
    } else {
      var all := findings + more;
      assert all[..|all| - 1] == findings + more[..|more| - 1];
      RepresentativeExtends(findings, more[..|more| - 1]);
    }
  }

  // ---------------------------------------------------------------- which scans succeed

  /** Findings are the same when rule, line and evidence are. */
  function Places(findings: seq<Finding>): set<(string, nat, string)> {
    set f | f in findings :: (f.ruleID, f.line, f.evidence)
  }

  /** All that the first `n` reads report. */
  function AllPlaces(engine: Engine, maskComments: bool, chunks: seq<string>, n: nat): set<(string, nat, string)>
    requires WellBehaved(engine) && n <= |chunks|
  {
    if n == 0 then {}
    else if chunks[n - 1] == "" then AllPlaces(engine, maskComments, chunks, n - 1)
    else AllPlaces(engine, maskComments, chunks, n - 1) + Places(WindowFindings(engine, maskComments, chunks, n - 1))
  }

  /** Each once. */
  predicate Distinct(findings: seq<Finding>) {
    |findings| == |Places(findings)|
  }

  lemma PlacesAppend(a: seq<Finding>, b: seq<Finding>)
    ensures Places(a + b) == Places(a) + Places(b)
  {
    forall p ensures p in Places(a + b) <==> p in Places(a) + Places(b) {
      if p in Places(a) {
        var f :| f in a && (f.ruleID, f.line, f.evidence) == p;
        assert f in a + b;
      }
      if p in Places(b) {
        var f :| f in b && (f.ruleID, f.line, f.evidence) == p;
        assert f in a + b;
      }
    }
  }

  lemma OnePlace(f: Finding)
    ensures Places([f]) == {(f.ruleID, f.line, f.evidence)}
    ensures forall findings :: KeyOf(f) in Keys(findings) <==> (f.ruleID, f.line, f.evidence) in Places(findings)
  {
  }

  lemma {:induction false} MergePlaces(found: seq<Finding>, batch: seq<Finding>, limit: nat)
    requires Distinct(found)
    ensures Distinct(Merge(found, batch, limit))
    ensures Places(found) <= Places(Merge(found, batch, limit)) <= Places(found) + Places(batch)
    ensures |Merge(found, batch, limit)| <= limit ==>
              Places(Merge(found, batch, limit)) == Places(found) + Places(batch)
    decreases |batch|
  {
    hide Places, Keys, KeyOf;
    if batch == [] {
      NoPlaces();
    } else if |found| <= limit {
      var f, rest := batch[0], batch[1..];
      OnePlace(f);
      PlacesAppend([f], rest);
      assert batch == [f] + rest;
      if KeyOf(f) in Keys(found) {
        MergePlaces(found, rest, limit);
      } else {
        PlacesAppend(found, [f]);
        MergePlaces(found + [f], rest, limit);
      }
    }
  }

  lemma NoPlaces()
    ensures Places([]) == {}
  {
  }

  lemma {:induction false} FoundPlaces(engine: Engine, maskComments: bool, chunks: seq<string>, n: nat)
    requires WellBehaved(engine) && n <= |chunks|
    ensures var found := FoundAfter(engine, maskComments, chunks, n);
            && Distinct(found) && Places(found) <= AllPlaces(engine, maskComments, chunks, n)
            && (|found| <= engine.limit ==> Places(found) == AllPlaces(engine, maskComments, chunks, n))
  {
    hide Places, Merge, WindowFindings;
    if n == 0 {
      NoPlaces();
    } else {
      FoundPlaces(engine, maskComments, chunks, n - 1);
      if chunks[n - 1] != "" {
        var found := FoundAfter(engine, maskComments, chunks, n - 1);
        MergePlaces(found, WindowFindings(engine, maskComments, chunks, n - 1), engine.limit);
        if |found| > engine.limit {
          MergeStaysOver(engine, maskComments, chunks, n - 1, n);
        }
      }
    }
  }

  lemma {:induction false} PartSize<T>(a: set<T>, b: set<T>)
    requires a <= b
    ensures |a| <= |b|
  {
    if a != {} {
      var x :| x in a;
      PartSize(a - {x}, b - {x});
    }
  }

  /** A scan succeeds exactly when the reader does and there are not more findings
      than the limit: different ones in all windows together, or all in the one
      window of a diff. */
  lemma ScanSucceedsExactly(engine: Engine, diffCandidate: bool, maskComments: bool, sampleLimit: nat,
                            chunks: seq<string>, readFails: bool)
    requires WellBehaved(engine)
    ensures ScanSpec(engine, diffCandidate, maskComments, sampleLimit, chunks, readFails).Scanned? <==>
            && !readFails
            && if diffCandidate && ReadAsDiff(sampleLimit, Concat(chunks)) then
                 var w := DiffWindow(Concat(chunks));
                 |Prepared(engine, w.text, w.behavior, w.lineOffset)| <= engine.limit
               else |AllPlaces(engine, maskComments, chunks, |chunks|)| <= engine.limit
  {
    hide FoundAfter, Representative, Prepared, AllPlaces, UnifiedDiff.BehaviorText, Places;
    FoundPlaces(engine, maskComments, chunks, |chunks|);
    PartSize(Places(FoundAfter(engine, maskComments, chunks, |chunks|)),
      AllPlaces(engine, maskComments, chunks, |chunks|));
  }

  /** It returns the size of the stream and as much of its beginning as it may. */
  lemma SampleIsTheBeginning(engine: Engine, diffCandidate: bool, maskComments: bool, sampleLimit: nat,
                             chunks: seq<string>, readFails: bool)
    requires WellBehaved(engine)
    requires ScanSpec(engine, diffCandidate, maskComments, sampleLimit, chunks, readFails).Scanned?
    ensures var result := ScanSpec(engine, diffCandidate, maskComments, sampleLimit, chunks, readFails);
            && result.total == |Concat(chunks)| && result.sample <= Concat(chunks)
            && (result.sample == Concat(chunks) || |result.sample| == sampleLimit)
            && |result.sample| <= sampleLimit
  {
    hide FoundAfter, Representative, Prepared, UnifiedDiff.BehaviorText;
  }

  // ---------------------------------------------------------------- findings that no rule makes

  ghost predicate NoRule(engine: Engine, id: string) {
    forall k :: 0 <= k < |engine.rules| ==> engine.rules[k].id != id
  }

  /** The rules stayed within the limit in this window, and of its text, nothing
      blanked, the other checks report the name with the room that is left. */
  predicate ExtraIn(engine: Engine, id: string, w: Window)
    requires WellBehaved(engine)
  {
    var found := |FoundBefore(engine, |engine.rules|, w)|;
    found <= engine.limit && Names(engine.extra(w.text, w.lineOffset, engine.limit + 1 - found), id)
  }

  lemma {:induction false} RulesDoNotName(engine: Engine, id: string, n: nat, w: Window)
    requires WellBehaved(engine) && NoRule(engine, id) && n <= |engine.rules|
    ensures !Names(FoundBefore(engine, n, w), id)
  {
    if n > 0 {
      RulesDoNotName(engine, id, n - 1, w);
      var found := FoundBefore(engine, n - 1, w);
      if |found| <= engine.limit {
        NamesOfConcat(found, RuleReports(engine, n - 1, w, found), id);
      }
    }
  }

  lemma ExtraInWindow(engine: Engine, id: string, w: Window)
    requires WellBehaved(engine) && NoRule(engine, id)
    ensures Names(Prepared(engine, w.text, w.behavior, w.lineOffset), id) <==> ExtraIn(engine, id, w)
  {
    hide FoundBefore, PreparedFrom, NoRule;
    var found := FoundBefore(engine, |engine.rules|, w);
    FoundNothing(engine, w);
    PreparedFromFound(engine, 0, w);
    RulesDoNotName(engine, id, |engine.rules|, w);
    if |found| <= engine.limit {
      NamesOfConcat(found, engine.extra(w.text, w.lineOffset, engine.limit + 1 - |found|), id);
    }
  }

  predicate ExtraSeen(engine: Engine, id: string, maskComments: bool, chunks: seq<string>, k: nat)
    requires WellBehaved(engine) && k < |chunks|
  {
    chunks[k] != "" && ExtraIn(engine, id, WindowOf(maskComments, chunks, k))
  }

  lemma {:induction false} ExtraAfter(engine: Engine, id: string, maskComments: bool, chunks: seq<string>, n: nat)
    requires WellBehaved(engine) && NoRule(engine, id) && n <= |chunks|
    requires |FoundAfter(engine, maskComments, chunks, n)| <= engine.limit
    ensures Names(FoundAfter(engine, maskComments, chunks, n), id) <==>
            exists k :: 0 <= k < n && ExtraSeen(engine, id, maskComments, chunks, k)
  {
    hide ExtraIn, NoRule, Merge, Prepared, Representative;
    if n > 0 {
      if |FoundAfter(engine, maskComments, chunks, n - 1)| > engine.limit {
        MergeStaysOver(engine, maskComments, chunks, n - 1, n);
      }
      ExtraAfter(engine, id, maskComments, chunks, n - 1);
      if chunks[n - 1] != "" {
        var batch, w := WindowFindings(engine, maskComments, chunks, n - 1), WindowOf(maskComments, chunks, n - 1);
        MergeNames(FoundAfter(engine, maskComments, chunks, n - 1), batch, engine.limit, id);
        RepresentativeNames(Prepared(engine, w.text, w.behavior, w.lineOffset), id);
        ExtraInWindow(engine, id, w);
        assert Names(batch, id) <==> ExtraSeen(engine, id, maskComments, chunks, n - 1);
      }
      assert (exists k :: 0 <= k < n && ExtraSeen(engine, id, maskComments, chunks, k)) <==>
             (exists k :: 0 <= k < n - 1 && ExtraSeen(engine, id, maskComments, chunks, k))
               || ExtraSeen(engine, id, maskComments, chunks, n - 1);
    }
  }

  /** A name that no rule has is in the result exactly when the other checks report
      it: in a diff, of the diff with all its lines; otherwise in some window. */
  lemma ExtraInResultExactly(engine: Engine, id: string, diffCandidate: bool, maskComments: bool, sampleLimit: nat,
                             chunks: seq<string>)
    requires WellBehaved(engine) && NoRule(engine, id)
    requires ScanSpec(engine, diffCandidate, maskComments, sampleLimit, chunks, false).Scanned?
    ensures Names(ScanSpec(engine, diffCandidate, maskComments, sampleLimit, chunks, false).findings, id) <==>
            if diffCandidate && ReadAsDiff(sampleLimit, Concat(chunks)) then
              ExtraIn(engine, id, DiffWindow(Concat(chunks)))
            else exists k :: 0 <= k < |chunks| && ExtraSeen(engine, id, maskComments, chunks, k)
  {
    hide FoundAfter, Representative, Prepared, ExtraIn, ExtraSeen, NoRule, UnifiedDiff.BehaviorText;
    if diffCandidate && ReadAsDiff(sampleLimit, Concat(chunks)) {
      var w := DiffWindow(Concat(chunks));
      ExtraInWindow(engine, id, w);
      RepresentativeNames(Prepared(engine, w.text, w.behavior, w.lineOffset), id);
    } else {
      ExtraAfter(engine, id, maskComments, chunks, |chunks|);
      RepresentativeNames(FoundAfter(engine, maskComments, chunks, |chunks|), id);
    }
  }
}
