/** Scripts that end early: when an opaque command such as `return` makes a report of
    StaticChecksums wrong. */
module StaticChecksumsStops {
  import opened Text
  import opened StaticChecksums
  import opened StaticChecksumsSound
  import opened StaticChecksumsLimits

  // ---------------------------------------------------------------- a report that an early end falsifies

  /** Like QUIET, but opaque commands end the script, as `return 0` does. */
  const RETURNING := QUIET.(command := (s: Stmt, st: Store) => st.(ended := true))

  /** `sha256sums=(a)`, `return 0`, `sha256sums=(b)`: the second assignment is
      reported and never executed. */
  lemma ReturnIsNotSeen()
    ensures var script := [Plainly(ArrayOf(LetterWord('a'))), Stmt(OtherCommand, false),
              Plainly(ArrayOf(LetterWord('b')))];
            && WellBehaved(RETURNING) && Plain(script)
            && AfterScript(NO_FACTS, script).values == map[SUMS := ["b"]]
            && Exec(RETURNING, script, EMPTY).vars == map[SUMS := Array(["a"])]
  {
    hide StaticWord, IsChecksumName, AfterAssign, ExecAssign, SoundWords, PureWords, ConfinedAssigns;
    OtherCommands(RETURNING.command);
    var first, stop, second := ArrayOf(LetterWord('a')), Stmt(OtherCommand, false), ArrayOf(LetterWord('b'));
    ThreeStmts(RETURNING, Plainly(first), stop, Plainly(second), EMPTY);
    LetterIsStatic('a', Scalars(EMPTY));
    ExecOne(RETURNING, first, EMPTY);
    ExecArray(RETURNING, LetterWord('a'), EMPTY, "a");
    var f := AfterStmt(AfterStmt(NO_FACTS, Plainly(first)), stop);
    LetterIsStatic('b', f.variables);
    AfterOne(f, second);
    AfterArray(f, LetterWord('b'));
    assert RETURNING.command(stop, SetName(EMPTY, SUMS, Array(["a"]))).vars == map[SUMS := Array(["a"])];
  }

  // ---------------------------------------------------------------- exactly which reports are safe

  /** An opaque command in the foreground: it may do anything, and may end the script. */
  predicate Opaque(s: Stmt) {
    !s.background && Assignments(s) == [] && !s.command.FuncDecl?
  }

  predicate NoneOpaque(script: seq<Stmt>) {
    forall i :: 0 <= i < |script| ==> !Opaque(script[i])
  }

  /** Nothing is wrong with words and assignments; of opaque commands nothing is asked. */
  ghost predicate OrdinaryWords(bash: Bash) {
    SoundWords(bash) && PureWords(bash) && ConfinedAssigns(bash)
  }

  predicate Fresh(st: Store) {
    st.special == {} && st.written == {} && !st.ended
  }

  lemma AssignGoesOn(bash: Bash, a: Assign, st: Store)
    requires OrdinaryWords(bash) && st.special == {} && !st.ended
    ensures !ExecAssign(bash, a, st).ended
  {
    if a.name.Some? && IsArray(a) && PlainElements(a.items.value) {
      ElementsArePure(bash, a.items.value, st);
    }
  }

  lemma {:induction false} AssignsGoOn(bash: Bash, assigns: seq<Assign>, st: Store)
    requires OrdinaryWords(bash) && st.special == {} && !st.ended
    ensures !ExecAssigns(bash, assigns, st).ended
    ensures RegularAssigns(bash, assigns, st) && ExecAssigns(bash, assigns, st).special == {}
  {
    hide ExecAssign, SoundWords, PureWords, ConfinedAssigns, ConfinedAssign, SoundAssign;
    AssignsAreRegular(bash, assigns, st);
    if assigns != [] {
      var init, last := assigns[..|assigns| - 1], assigns[|assigns| - 1];
      AssignsGoOn(bash, init, st);
      AssignGoesOn(bash, last, ExecAssigns(bash, init, st));
    }
  }

  lemma {:induction false} NoneOpaqueGoesOn(bash: Bash, script: seq<Stmt>, st: Store)
    requires OrdinaryWords(bash) && Plain(script) && NoneOpaque(script) && st.special == {} && !st.ended
    ensures RegularRun(bash, script, st)
    ensures !Exec(bash, script, st).ended && Exec(bash, script, st).special == {}
  {
    hide OrdinaryWords, RegularAssigns, ExecAssigns, PlainStmt, Opaque;
    if script != [] {
      var init, last := script[..|script| - 1], script[|script| - 1];
      assert forall i :: 0 <= i < |init| ==> init[i] == script[i];
      NoneOpaqueGoesOn(bash, init, st);
      assert PlainStmt(last) && !Opaque(last);
      StmtGoesOn(bash, last, Exec(bash, init, st));
    }
  }

  lemma StmtGoesOn(bash: Bash, s: Stmt, st: Store)
    requires OrdinaryWords(bash) && PlainStmt(s) && !Opaque(s) && st.special == {} && !st.ended
    ensures RegularAssigns(bash, Assignments(s), st)
    ensures !ExecStmt(bash, s, st).ended && ExecStmt(bash, s, st).special == {}
  {
    hide OrdinaryWords, RegularAssigns, ExecAssigns;
    AssignsGoOn(bash, Assignments(s), st);
  }

  /** Like QUIET, but opaque commands unset every variable and end the script. */
  const LEAVING := QUIET.(command := (s: Stmt, st: Store) => st.(vars := map[], ended := true))

  lemma {:induction false} FirstOpaque(script: seq<Stmt>) returns (n: nat)
    requires !NoneOpaque(script)
    ensures n < |script| && Opaque(script[n]) && NoneOpaque(script[..n])
  {
    hide Opaque;
    var init := script[..|script| - 1];
    if NoneOpaque(init) {
      n := |script| - 1;
    } else {
      n := FirstOpaque(init);
      assert init[..n] == script[..n] && init[n] == script[n];
    }
  }

  lemma LeavesNothing(script: seq<Stmt>)
    requires Plain(script) && !NoneOpaque(script)
    ensures OrdinaryWords(LEAVING) && Exec(LEAVING, script, EMPTY).vars == map[]
  {
    hide ExecStmt, PlainStmt, Opaque, SoundWords, PureWords, ConfinedAssigns, RegularRun;
    OtherCommands(LEAVING.command);
    var n := FirstOpaque(script);
    assert forall i :: 0 <= i < n ==> script[..n][i] == script[i];
    NoneOpaqueGoesOn(LEAVING, script[..n], EMPTY);
    assert script[..n + 1][..n] == script[..n] && script[..n + 1][n] == script[n];
    var before := Exec(LEAVING, script[..n], EMPTY);
    OpaqueLeaves(script[n], before);
    assert Exec(LEAVING, script[..n + 1], EMPTY) == ExecStmt(LEAVING, script[n], before);
    NothingFollows(LEAVING, script, EMPTY, n + 1);
  }

  lemma OpaqueLeaves(s: Stmt, st: Store)
    requires Opaque(s)
    ensures ExecStmt(LEAVING, s, st) == st.(vars := map[], ended := true)
  {
  }

  /** However little is wrong with the words: a reported array is the array of every
      execution if and only if the script has no opaque command in the foreground. */
  lemma ReportIsSafeExactly(script: seq<Stmt>, name: string)
    requires Plain(script) && name in AfterScript(NO_FACTS, script).values
    ensures (forall bash: Bash, st: Store :: OrdinaryWords(bash) && Fresh(st) ==>
               Real(AfterScript(NO_FACTS, script), Exec(bash, script, st), name)) <==>
            NoneOpaque(script)
  {
    hide OrdinaryWords, Exec, RegularRun, NoneOpaque, Plain, AfterScript;
    var f := AfterScript(NO_FACTS, script);
    if NoneOpaque(script) {
      forall bash: Bash, st: Store | OrdinaryWords(bash) && Fresh(st) ensures Real(f, Exec(bash, script, st), name) {
        NoneOpaqueGoesOn(bash, script, st);
        FinishedRunsAreReal(bash, script, st, name);
      }
    } else {
      LeavesNothing(script);
      assert Fresh(EMPTY) && !Real(f, Exec(LEAVING, script, EMPTY), name);
    }
  }
}
