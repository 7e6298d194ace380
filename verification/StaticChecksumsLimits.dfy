/** Regular runs exist: under a Bash that is well-behaved throughout, every script
    that assigns plainly runs regularly.  When one of those properties is missing,
    the analysis can report an array that the script does not have; there is a
    script for each. */
module StaticChecksumsLimits {
  import opened Text
  import opened ShellWord
  import ShellQuoting
  import ShellReading
  import opened StaticChecksums
  import opened StaticChecksumsSound

  // ---------------------------------------------------------------- a Bash that is well-behaved throughout

  /** Every word that the evaluator resolves has that value, in one field. */
  ghost predicate SoundWords(bash: Bash) {
    forall w: Word, st: Store :: SoundScalar(bash, w, st) && SoundElement(bash, w, st)
  }

  /** No word has an effect. */
  ghost predicate PureWords(bash: Bash) {
    forall w: Word, st: Store :: bash.expand(w, st).1 == st && bash.fields(w, st).1 == st
  }

  /** Irregular assignments change their own name only, and the script goes on. */
  ghost predicate ConfinedAssigns(bash: Bash) {
    forall a: Assign, st: Store :: a.name.Some? ==>
      && OnlyChanges(st, bash.irregular(a, st), a.name.value)
      && bash.irregular(a, st).special == st.special && bash.irregular(a, st).ended == st.ended
  }

  /** Opaque commands may do anything to names and values and may end the script,
      but set no attributes. */
  ghost predicate NoAttributes(bash: Bash) {
    forall s: Stmt, st: Store :: bash.command(s, st).special == st.special
  }

  ghost predicate WellBehaved(bash: Bash) {
    SoundWords(bash) && PureWords(bash) && ConfinedAssigns(bash) && NoAttributes(bash)
  }

  /** Assignments run in the foreground, and declarations set no attributes. */
  predicate Plain(script: seq<Stmt>) {
    forall i :: 0 <= i < |script| ==> PlainStmt(script[i])
  }

  lemma {:induction false} WellBehavedRunsAreRegular(bash: Bash, script: seq<Stmt>, st: Store)
    requires WellBehaved(bash) && Plain(script) && st.special == {}
    ensures RegularRun(bash, script, st) && Exec(bash, script, st).special == {}
  {
    hide RegularAssigns, ExecAssigns, SoundWords, PureWords, ConfinedAssigns, PlainStmt;
    if script != [] {
      var init, last := script[..|script| - 1], script[|script| - 1];
      assert forall i :: 0 <= i < |init| ==> init[i] == script[i];
      WellBehavedRunsAreRegular(bash, init, st);
      assert PlainStmt(last);
      AssignsAreRegular(bash, Assignments(last), Exec(bash, init, st));
      StmtSetsNothing(bash, last, Exec(bash, init, st));
    }
  }

  lemma StmtSetsNothing(bash: Bash, s: Stmt, st: Store)
    requires NoAttributes(bash) && PlainStmt(s) && ExecAssigns(bash, Assignments(s), st).special == {} == st.special
    ensures ExecStmt(bash, s, st).special == {}
  {
  }

  lemma {:induction false} AssignsAreRegular(bash: Bash, assigns: seq<Assign>, st: Store)
    requires SoundWords(bash) && PureWords(bash) && ConfinedAssigns(bash) && st.special == {}
    ensures RegularAssigns(bash, assigns, st) && ExecAssigns(bash, assigns, st).special == {}
  {
    hide ExecAssign, ConfinedAssign, SoundAssign, SoundWords, PureWords, ConfinedAssigns;
    if assigns != [] {
      var init, last := assigns[..|assigns| - 1], assigns[|assigns| - 1];
      AssignsAreRegular(bash, init, st);
      AssignIsConfined(bash, last, ExecAssigns(bash, init, st));
      AssignIsSound(bash, last, ExecAssigns(bash, init, st));
    }
  }

  lemma AssignIsSound(bash: Bash, a: Assign, st: Store)
    requires SoundWords(bash)
    ensures SoundAssign(bash, a, st)
  {
    hide SoundScalar, SoundElement, IsChecksumName;
  }

  lemma AssignIsConfined(bash: Bash, a: Assign, st: Store)
    requires PureWords(bash) && ConfinedAssigns(bash) && st.special == {}
    ensures ConfinedAssign(bash, a, st) && ExecAssign(bash, a, st).special == {}
  {
    if a.name.Some? && IsArray(a) && PlainElements(a.items.value) {
      ElementsArePure(bash, a.items.value, st);
    }
  }

  lemma {:induction false} ElementsArePure(bash: Bash, elements: seq<Element>, st: Store)
    requires PureWords(bash) && PlainElements(elements)
    ensures ExecElements(bash, elements, st).1 == st
  {
    if elements != [] {
      ElementsArePure(bash, elements[..|elements| - 1], st);
    }
  }

  // ---------------------------------------------------------------- a Bash without surprises

  /** The names of `st` that have a scalar value, with it. */
  function Scalars(st: Store): map<string, string> {
    map name | name in st.vars && ScalarOf(st.vars[name]).Some? :: ScalarOf(st.vars[name]).value
  }

  function Expand(w: Word, st: Store): string {
    match StaticWord(w, Scalars(st)) case Some(v) => v case None => ""
  }

  function Touch(a: Assign, st: Store): Store {
    if a.name.Some? then st.(written := st.written + {a.name.value}) else st
  }

  /** Words the evaluator does not resolve are empty; irregular assignments
      fail; opaque commands do nothing. */
  const QUIET := Bash(
    (w: Word, st: Store) => (Expand(w, st), st),
    (w: Word, st: Store) => ([Expand(w, st)], st),
    (a: Assign, st: Store) => Touch(a, st),
    (s: Stmt, st: Store) => st)

  lemma QuietBashIsWellBehaved()
    ensures WellBehaved(QUIET)
  {
    forall w: Word, variables: map<string, string>, st: Store | Knows(variables, st) && StaticWord(w, variables).Some?
      ensures Expand(w, st) == StaticWord(w, variables).value
    {
      assert forall name :: name in variables ==> name in Scalars(st) && Scalars(st)[name] == variables[name];
      RunGrows(w.printed.value, true, Bare, "", variables, Scalars(st));
    }
    forall a: Assign, st: Store | a.name.Some? ensures OnlyChanges(st, QUIET.irregular(a, st), a.name.value) {
    }
  }

  // ---------------------------------------------------------------- small scripts

  const SUMS := "sha256sums"
  const EMPTY := Store(map[], {}, {}, false)

  function LetterWord(c: char): Word {
    Word(Some([c]))
  }

  function ArrayOf(w: Word): Assign {
    Assign(Some(SUMS), false, false, false, Some([Element(false, Some(w))]), None)
  }

  function ScalarTo(name: string, w: Word): Assign {
    Assign(Some(name), false, false, false, None, Some(w))
  }

  function Plainly(a: Assign): Stmt {
    Stmt(Call(0, [a]), false)
  }

  lemma SumsIsAChecksumName()
    ensures IsChecksumName(SUMS)
  {
    HasPrefixMeansPrefix(SUMS, ALGORITHMS[4] + "sums");
    assert ALGORITHMS[4] + "sums" == SUMS;
    assert SUMS[10..] == "";
  }

  lemma LetterIsStatic(c: char, variables: map<string, string>)
    requires IsLetter(c)
    ensures StaticWord(LetterWord(c), variables) == Some([c])
  {
    hide VariableReference, SkipBlanks;
    assert [c][1..] == "";
    assert Run("", false, Bare, [c], variables) == Some([c]);
    assert "" + [c] == [c];
  }

  lemma AfterOne(f: Facts, a: Assign)
    ensures AfterStmt(f, Plainly(a)) == AfterAssign(f, a)
  {
    hide AfterAssign;
    var s := Assignments(Plainly(a));
    assert s == [a] && s[..|s| - 1] == [];
    assert AfterAssigns(f, []) == f && AfterAssigns(f, s) == AfterAssign(f, a);
  }

  lemma ExecOne(bash: Bash, a: Assign, st: Store)
    requires !st.ended
    ensures ExecStmt(bash, Plainly(a), st) == ExecAssign(bash, a, st)
  {
    hide ExecAssign;
    var s := Assignments(Plainly(a));
    assert s == [a] && s[..|s| - 1] == [];
    assert ExecAssigns(bash, [], st) == st && ExecAssigns(bash, s, st) == ExecAssign(bash, a, st);
  }

  lemma AfterArray(f: Facts, w: Word)
    requires StaticWord(w, f.variables).Some?
    ensures AfterAssign(f, ArrayOf(w)) == Resolve(f, SUMS, [StaticWord(w, f.variables).value])
  {
    hide StaticWord, IsChecksumName;
    SumsIsAChecksumName();
    var elements := [Element(false, Some(w))];
    assert elements[..|elements| - 1] == [] && StaticElements([], f.variables) == Some([]);
    assert StaticElements(elements, f.variables) == Some([] + [StaticWord(w, f.variables).value]);
    assert [] + [StaticWord(w, f.variables).value] == [StaticWord(w, f.variables).value];
    assert StaticArray(ArrayOf(w), f.variables) == Some([StaticWord(w, f.variables).value]);
  }

  lemma ExecArray(bash: Bash, w: Word, st: Store, v: string)
    requires st.special == {} && !st.ended && bash.fields(w, st) == ([v], st)
    ensures ExecAssign(bash, ArrayOf(w), st) == SetName(st, SUMS, Array([v]))
  {
    var elements := [Element(false, Some(w))];
    assert elements[..|elements| - 1] == [] && ExecElements(bash, [], st) == ([], st);
    assert ExecElements(bash, elements, st) == ([] + [v], st);
    assert [] + [v] == [v] && ArrayOf(w).items.value == elements && PlainElements(elements);
  }

  lemma TwoStmts(bash: Bash, a: Stmt, b: Stmt, st: Store)
    requires !st.ended
    ensures AfterScript(NO_FACTS, [a, b]) == AfterStmt(AfterStmt(NO_FACTS, a), b)
    ensures !ExecStmt(bash, a, st).ended ==>
              Exec(bash, [a, b], st) == ExecStmt(bash, b, ExecStmt(bash, a, st))
  {
    hide AfterStmt, ExecStmt;
    var two, one := [a, b], [a];
    assert two[..|two| - 1] == one && one[..|one| - 1] == [];
    assert AfterScript(NO_FACTS, []) == NO_FACTS && AfterScript(NO_FACTS, one) == AfterStmt(NO_FACTS, a);
    assert Exec(bash, [], st) == st && Exec(bash, one, st) == ExecStmt(bash, a, st);
  }

  /** `sha256sums=(a)` and then `sha256sums=(b) &`: the background assignment is
      reported, but happens in a subshell. */
  lemma BackgroundIsNotSeen()
    ensures var script := [Plainly(ArrayOf(LetterWord('a'))), Plainly(ArrayOf(LetterWord('b'))).(background := true)];
            && WellBehaved(QUIET)
            && AfterScript(NO_FACTS, script).values == map[SUMS := ["b"]]
            && Exec(QUIET, script, EMPTY).vars == map[SUMS := Array(["a"])]
  {
    hide StaticWord, IsChecksumName, AfterStmt, ExecStmt, AfterAssign, ExecAssign;
    QuietBashIsWellBehaved();
    var first, second := Plainly(ArrayOf(LetterWord('a'))), Plainly(ArrayOf(LetterWord('b')));
    TwoStmts(QUIET, first, second.(background := true), EMPTY);
    BackgroundReads(second, AfterStmt(NO_FACTS, first), ExecStmt(QUIET, first, EMPTY));
    ArraySets('a', NO_FACTS, EMPTY);
    ArraySets('b', AfterStmt(NO_FACTS, first), EMPTY);
  }

  lemma BackgroundReads(s: Stmt, f: Facts, st: Store)
    ensures AfterStmt(f, s.(background := true)) == AfterStmt(f, s)
    ensures ExecStmt(QUIET, s.(background := true), st) == st
  {
  }

  lemma ArraySets(c: char, f: Facts, st: Store)
    requires IsLetter(c) && st.special == {} && !st.ended
    ensures AfterStmt(f, Plainly(ArrayOf(LetterWord(c)))) == Resolve(f, SUMS, [[c]])
    ensures ExecStmt(QUIET, Plainly(ArrayOf(LetterWord(c))), st) == SetName(st, SUMS, Array([[c]]))
  {
    hide StaticWord, IsChecksumName, AfterAssign, ExecAssign;
    var a := ArrayOf(LetterWord(c));
    LetterIsStatic(c, f.variables);
    LetterIsStatic(c, Scalars(st));
    AfterOne(f, a);
    ExecOne(QUIET, a, st);
    AfterArray(f, LetterWord(c));
    ExecArray(QUIET, LetterWord(c), st, [c]);
  }

  /** `readonly sha256sums=(a)` and then `sha256sums=(b)`: the second assignment
      fails, but is reported. */
  lemma AttributesAreNotSeen()
    ensures var script := [Stmt(Decl([ArrayOf(LetterWord('a'))], true), false), Plainly(ArrayOf(LetterWord('b')))];
            && WellBehaved(QUIET)
            && AfterScript(NO_FACTS, script).values == map[SUMS := ["b"]]
            && Exec(QUIET, script, EMPTY).vars == map[SUMS := Array(["a"])]
  {
    hide StaticWord, IsChecksumName, AfterStmt, ExecStmt, AfterAssign, ExecAssign;
    QuietBashIsWellBehaved();
    var a, b := ArrayOf(LetterWord('a')), ArrayOf(LetterWord('b'));
    var first, second := Stmt(Decl([a], true), false), Plainly(b);
    TwoStmts(QUIET, first, second, EMPTY);
    ArraySets('a', NO_FACTS, EMPTY);
    ReadonlySets(a, NO_FACTS, EMPTY);
    ArraySets('b', AfterStmt(NO_FACTS, first), EMPTY);
    var st := ExecStmt(QUIET, first, EMPTY);
    ExecOne(QUIET, b, st);
    assert ExecAssign(QUIET, b, st) == Touch(b, st) by { SpecialFails(b, st); }
  }

  lemma ReadonlySets(a: Assign, f: Facts, st: Store)
    requires a.name == Some(SUMS)
    ensures AfterStmt(f, Stmt(Decl([a], true), false)) == AfterStmt(f, Plainly(a))
    ensures var st1 := ExecStmt(QUIET, Plainly(a), st);
            !st1.ended ==> ExecStmt(QUIET, Stmt(Decl([a], true), false), st) == st1.(special := st1.special + {SUMS})
  {
    hide AfterAssign, ExecAssign;
    assert NamesOf([a]) == {SUMS} by { assert [a][0].name == Some(SUMS); }
  }

  lemma SpecialFails(a: Assign, st: Store)
    requires a.name.Some? && a.name.value in st.special
    ensures ExecAssign(QUIET, a, st) == Touch(a, st)
  {
  }

  // ---------------------------------------------------------------- a word with an effect

  const DEFAULTING := Word(Some("${v:=x}"))
  const QUOTED_V := Word(Some("\"$v\""))

  /** Like QUIET, but `${v:=x}` sets `v`. */
  const EAGER := Bash(
    (w: Word, st: Store) => if w == DEFAULTING then ("x", SetName(st, "v", Scalar("x"))) else (Expand(w, st), st),
    (w: Word, st: Store) => if w == DEFAULTING then (["x"], SetName(st, "v", Scalar("x"))) else ([Expand(w, st)], st),
    (a: Assign, st: Store) => Touch(a, st),
    (s: Stmt, st: Store) => st)

  lemma DefaultingIsNotStatic(variables: map<string, string>)
    ensures StaticWord(DEFAULTING, variables) == None
  {
    var input := "${v:=x}";
    var tail := input[2..];
    SpanIs(tail, c => c != '}', 4);
    assert tail[..4][1] == ':';
    assert VariableReference(input) == None;
  }

  lemma EagerBashIsSound()
    ensures SoundWords(EAGER) && ConfinedAssigns(EAGER) && NoAttributes(EAGER)
  {
    hide StaticWord, Knows, Expand;
    QuietBashIsWellBehaved();
    forall variables: map<string, string> ensures StaticWord(DEFAULTING, variables) == None {
      DefaultingIsNotStatic(variables);
    }
    forall w: Word, variables: map<string, string>, st: Store | Knows(variables, st) && StaticWord(w, variables).Some?
      ensures EAGER.expand(w, st) == (StaticWord(w, variables).value, st)
                && EAGER.fields(w, st) == ([StaticWord(w, variables).value], st)
    {
      assert SoundScalar(QUIET, w, st) && SoundElement(QUIET, w, st);
      assert QUIET.expand(w, st) == (StaticWord(w, variables).value, st);
    }
  }

  lemma QuotedEmptyIsStatic(variables: map<string, string>)
    ensures StaticWord(Word(Some("\"\"")), variables) == Some("")
  {
    var input := "\"\"";
    assert input[1..][1..] == "";
    assert Run(input[1..], false, Double, "", variables) == Run("", false, Bare, "", variables);
  }

  lemma QuotedVariableIsStatic(variables: map<string, string>)
    requires "v" in variables && |variables["v"]| <= MAX_VALUE
    ensures StaticWord(QUOTED_V, variables) == Some(variables["v"])
  {
    var input, value := "\"$v\"", variables["v"];
    var r1, r2 := input[1..], input[3..];
    assert r1[2..] == r2 && r2[1..] == "";
    SpanIs(r1[2..], c => IsNameChar(c), 0);
    assert r1[1..][..1] == "v";
    assert VariableReference(r1) == Some(Reference("v", 2));
    assert "" + value == value;
    assert Run(r2, false, Double, value, variables) == Run("", false, Bare, value, variables) == Some(value);
    assert Run(r1, false, Double, "", variables) == Run(r2, false, Double, value, variables);
  }

  lemma ThreeStmts(bash: Bash, a: Stmt, b: Stmt, c: Stmt, st: Store)
    requires !st.ended
    ensures AfterScript(NO_FACTS, [a, b, c]) == AfterStmt(AfterStmt(AfterStmt(NO_FACTS, a), b), c)
    ensures var st1 := ExecStmt(bash, a, st);
            var st2 := ExecStmt(bash, b, st1);
            !st1.ended ==> Exec(bash, [a, b, c], st) == if st2.ended then st2 else ExecStmt(bash, c, st2)
  {
    hide AfterStmt, ExecStmt;
    TwoStmts(bash, a, b, st);
    var three := [a, b, c];
    assert three[..|three| - 1] == [a, b];
  }

  lemma NotChecksumNames()
    ensures !IsChecksumName("v") && !IsChecksumName("w")
  {
  }

  lemma AfterScalarStmt(f: Facts, name: string, w: Word)
    requires !IsChecksumName(name)
    ensures AfterStmt(f, Plainly(ScalarTo(name, w))) == f.(variables := AfterScalar(ScalarTo(name, w), f.variables))
  {
    hide IsChecksumName, AfterScalar;
    AfterOne(f, ScalarTo(name, w));
  }

  /** `v=""`, `w=${v:=x}`, `sha256sums=("$v")`: the second word sets `v`, and the
      analysis reports the value `v` had before. */
  lemma EffectsOfWordsAreNotSeen()
    ensures var script := [Plainly(ScalarTo("v", Word(Some("\"\"")))), Plainly(ScalarTo("w", DEFAULTING)),
              Plainly(ArrayOf(QUOTED_V))];
            && SoundWords(EAGER) && ConfinedAssigns(EAGER) && NoAttributes(EAGER) && Plain(script)
            && AfterScript(NO_FACTS, script).values == map[SUMS := [""]]
            && SUMS in Exec(EAGER, script, EMPTY).vars && Exec(EAGER, script, EMPTY).vars[SUMS] == Array(["x"])
  {
    hide StaticWord, IsChecksumName, AfterStmt, ExecStmt, AfterAssign, ExecAssign;
    var a, b, c := Plainly(ScalarTo("v", Word(Some("\"\"")))), Plainly(ScalarTo("w", DEFAULTING)),
      Plainly(ArrayOf(QUOTED_V));
    EagerBashIsSound();
    ThreeStmts(EAGER, a, b, c, EMPTY);
    EffectsInFacts(a, b, c);
    EffectsInStore(a, b, c);
  }

  lemma EffectsInFacts(a: Stmt, b: Stmt, c: Stmt)
    requires a == Plainly(ScalarTo("v", Word(Some("\"\"")))) && b == Plainly(ScalarTo("w", DEFAULTING))
               && c == Plainly(ArrayOf(QUOTED_V))
    ensures AfterStmt(AfterStmt(AfterStmt(NO_FACTS, a), b), c).values == map[SUMS := [""]]
  {
    hide StaticWord, IsChecksumName, AfterStmt, AfterAssign;
    NotChecksumNames();
    QuotedEmptyIsStatic(map[]);
    AfterScalarStmt(NO_FACTS, "v", Word(Some("\"\"")));
    var f := AfterStmt(NO_FACTS, a);
    assert f == NO_FACTS.(variables := map["v" := ""]);
    AfterScalarStmt(f, "w", DEFAULTING);
    DefaultingIsNotStatic(f.variables);
    var g := AfterStmt(f, b);
    assert g.variables == f.variables - {"w"} == f.variables;
    QuotedVariableIsStatic(g.variables);
    AfterOne(g, ArrayOf(QUOTED_V));
    AfterArray(g, QUOTED_V);
  }

  lemma EffectsInStore(a: Stmt, b: Stmt, c: Stmt)
    requires a == Plainly(ScalarTo("v", Word(Some("\"\"")))) && b == Plainly(ScalarTo("w", DEFAULTING))
               && c == Plainly(ArrayOf(QUOTED_V))
    ensures !ExecStmt(EAGER, a, EMPTY).ended && !ExecStmt(EAGER, b, ExecStmt(EAGER, a, EMPTY)).ended
    ensures var st := ExecStmt(EAGER, c, ExecStmt(EAGER, b, ExecStmt(EAGER, a, EMPTY)));
            SUMS in st.vars && st.vars[SUMS] == Array(["x"])
  {
    hide StaticWord, ExecStmt;
    ExecOne(EAGER, ScalarTo("v", Word(Some("\"\""))), EMPTY);
    QuotedEmptyIsStatic(Scalars(EMPTY));
    var st1 := ExecStmt(EAGER, a, EMPTY);
    assert st1.special == {};
    ExecOne(EAGER, ScalarTo("w", DEFAULTING), st1);
    var st2 := ExecStmt(EAGER, b, st1);
    var effect := SetName(st1, "v", Scalar("x"));
    assert EAGER.expand(DEFAULTING, st1) == ("x", effect);
    assert st2 == SetName(effect, "w", AssignedScalar(effect, "w", false, "x"));
    assert "w" != "v";
    assert st2.special == {} && "v" in st2.vars && st2.vars["v"] == Scalar("x");
    ExecOne(EAGER, ArrayOf(QUOTED_V), st2);
    QuotedVariableIsStatic(Scalars(st2));
    ExecArray(EAGER, QUOTED_V, st2, "x");
  }

  // ---------------------------------------------------------------- an assignment that changes another name

  const MEDDLESOME := Assign(Some("a"), false, false, true, None, Some(Word(Some("x"))))

  /** Like QUIET, but `a[v=1]=x` sets `v`. */
  const MEDDLING := QUIET.(irregular := (a: Assign, st: Store) => if a == MEDDLESOME then SetName(st, "v", Scalar("1"))
    else Touch(a, st))

  /** `v=""`, `a[v=1]=x`, `sha256sums=("$v")`: the index sets `v`. */
  lemma EffectsOfIndicesAreNotSeen()
    ensures var script := [Plainly(ScalarTo("v", Word(Some("\"\"")))), Plainly(MEDDLESOME), Plainly(ArrayOf(QUOTED_V))];
            && SoundWords(MEDDLING) && PureWords(MEDDLING) && NoAttributes(MEDDLING) && Plain(script)
            && AfterScript(NO_FACTS, script).values == map[SUMS := [""]]
            && SUMS in Exec(MEDDLING, script, EMPTY).vars && Exec(MEDDLING, script, EMPTY).vars[SUMS] == Array(["1"])
  {
    hide StaticWord, IsChecksumName, AfterStmt, ExecStmt, AfterAssign, ExecAssign, SoundWords;
    var a, b, c := Plainly(ScalarTo("v", Word(Some("\"\"")))), Plainly(MEDDLESOME), Plainly(ArrayOf(QUOTED_V));
    MeddlingReads();
    ThreeStmts(MEDDLING, a, b, c, EMPTY);
    MeddlingInFacts(a, b, c);
    MeddlingInStore(a, b, c);
  }

  lemma MeddlingReads()
    ensures SoundWords(MEDDLING) && PureWords(MEDDLING) && NoAttributes(MEDDLING)
  {
    hide StaticWord, Knows, Expand;
    QuietBashIsWellBehaved();
    forall w: Word, st: Store ensures SoundScalar(MEDDLING, w, st) && SoundElement(MEDDLING, w, st) {
      assert SoundScalar(QUIET, w, st) && SoundElement(QUIET, w, st);
    }
  }

  lemma MeddlingInFacts(a: Stmt, b: Stmt, c: Stmt)
    requires a == Plainly(ScalarTo("v", Word(Some("\"\"")))) && b == Plainly(MEDDLESOME)
               && c == Plainly(ArrayOf(QUOTED_V))
    ensures AfterStmt(AfterStmt(AfterStmt(NO_FACTS, a), b), c).values == map[SUMS := [""]]
  {
    hide StaticWord, AfterStmt;
    NotChecksumNames();
    QuotedEmptyIsStatic(map[]);
    AfterScalarStmt(NO_FACTS, "v", Word(Some("\"\"")));
    var f := AfterStmt(NO_FACTS, a);
    assert f == NO_FACTS.(variables := map["v" := ""]);
    AfterOne(f, MEDDLESOME);
    var g := AfterStmt(f, b);
    assert g.variables == f.variables - {"a"} == f.variables && g.values == map[];
    QuotedVariableIsStatic(g.variables);
    AfterOne(g, ArrayOf(QUOTED_V));
    AfterArray(g, QUOTED_V);
  }

  lemma MeddlingInStore(a: Stmt, b: Stmt, c: Stmt)
    requires a == Plainly(ScalarTo("v", Word(Some("\"\"")))) && b == Plainly(MEDDLESOME)
               && c == Plainly(ArrayOf(QUOTED_V))
    ensures !ExecStmt(MEDDLING, a, EMPTY).ended && !ExecStmt(MEDDLING, b, ExecStmt(MEDDLING, a, EMPTY)).ended
    ensures var st := ExecStmt(MEDDLING, c, ExecStmt(MEDDLING, b, ExecStmt(MEDDLING, a, EMPTY)));
            SUMS in st.vars && st.vars[SUMS] == Array(["1"])
  {
    hide StaticWord, ExecStmt;
    ExecOne(MEDDLING, ScalarTo("v", Word(Some("\"\""))), EMPTY);
    QuotedEmptyIsStatic(Scalars(EMPTY));
    var st1 := ExecStmt(MEDDLING, a, EMPTY);
    ExecOne(MEDDLING, MEDDLESOME, st1);
    var st2 := ExecStmt(MEDDLING, b, st1);
    assert st2 == SetName(st1, "v", Scalar("1"));
    ExecOne(MEDDLING, ArrayOf(QUOTED_V), st2);
    QuotedVariableIsStatic(Scalars(st2));
    ExecArray(MEDDLING, QUOTED_V, st2, "1");
  }

  // ---------------------------------------------------------------- an opaque command that sets an attribute

  /** Like QUIET, but opaque commands make the array readonly, as
      `eval 'readonly sha256sums'` does. */
  const SEALING := QUIET.(command := (s: Stmt, st: Store) => st.(special := st.special + {SUMS}))

  /** `eval 'readonly sha256sums'` and then `sha256sums=(a)`: the assignment fails,
      but is reported. */
  lemma OpaqueAttributesAreNotSeen()
    ensures var script := [Stmt(OtherCommand, false), Plainly(ArrayOf(LetterWord('a')))];
            && SoundWords(SEALING) && PureWords(SEALING) && ConfinedAssigns(SEALING) && Plain(script)
            && AfterScript(NO_FACTS, script).values == map[SUMS := ["a"]]
            && Exec(SEALING, script, EMPTY).vars == map[]
  {
    hide StaticWord, IsChecksumName, AfterAssign, ExecAssign, SoundWords, PureWords, ConfinedAssigns;
    var eval, a := Stmt(OtherCommand, false), ArrayOf(LetterWord('a'));
    OtherCommands(SEALING.command);
    TwoStmts(SEALING, eval, Plainly(a), EMPTY);
    var f, st := AfterStmt(NO_FACTS, eval), ExecStmt(SEALING, eval, EMPTY);
    LetterIsStatic('a', f.variables);
    AfterOne(f, a);
    AfterArray(f, LetterWord('a'));
    ExecOne(SEALING, a, st);
    assert ExecAssign(SEALING, a, st) == Touch(a, st) by { SealedFails(a, st); }
  }

  /** With other opaque commands QUIET stays sound in all else. */
  lemma OtherCommands(command: (Stmt, Store) -> Store)
    ensures var bash := QUIET.(command := command);
            SoundWords(bash) && PureWords(bash) && ConfinedAssigns(bash)
  {
    hide StaticWord, Knows, Expand;
    var bash := QUIET.(command := command);
    QuietBashIsWellBehaved();
    forall w: Word, st: Store ensures SoundScalar(bash, w, st) && SoundElement(bash, w, st) {
      assert SoundScalar(QUIET, w, st) && SoundElement(QUIET, w, st);
    }
  }

  lemma SealedFails(a: Assign, st: Store)
    requires a.name.Some? && a.name.value in st.special
    ensures ExecAssign(SEALING, a, st) == Touch(a, st)
  {
  }

  // ---------------------------------------------------------------- words that Bash reads otherwise

  /** Like QUIET, but the word `odd` is these array elements. */
  function Reading(odd: Word, items: seq<string>): Bash {
    QUIET.(fields := (w: Word, st: Store) => if w == odd then (items, st) else ([Expand(w, st)], st))
  }

  /** A checksum array of one word that the evaluator resolves is reported with the
      evaluator's value, and is what Bash makes of the word. */
  lemma OddWordIsReported(w: Word, f: Facts, items: seq<string>, st: Store)
    requires StaticWord(w, f.variables).Some? && st.special == {} && !st.ended
    ensures AfterStmt(f, Plainly(ArrayOf(w))).values == f.values[SUMS := [StaticWord(w, f.variables).value]]
    ensures SUMS in ExecStmt(Reading(w, items), Plainly(ArrayOf(w)), st).vars
    ensures ExecStmt(Reading(w, items), Plainly(ArrayOf(w)), st).vars[SUMS] == Array(items)
    ensures PureWords(Reading(w, items)) && ConfinedAssigns(Reading(w, items)) && NoAttributes(Reading(w, items))
  {
    hide StaticWord, AfterStmt, ExecStmt, Expand;
    var bash, a := Reading(w, items), ArrayOf(w);
    QuietBashIsWellBehaved();
    AfterOne(f, a);
    AfterArray(f, w);
    ExecOne(bash, a, st);
    var elements := [Element(false, Some(w))];
    assert elements[..|elements| - 1] == [] && ExecElements(bash, [], st) == ([], st);
    assert bash.fields(w, st) == (items, st);
    assert ExecElements(bash, elements, st) == ([] + items, st) && [] + items == items;
    assert a.items.value == elements && PlainElements(elements);
  }

  const BARE_V := Word(Some("$v"))

  lemma BareVariableIsStatic(variables: map<string, string>)
    requires "v" in variables && |variables["v"]| <= MAX_VALUE
    ensures StaticWord(BARE_V, variables) == Some(variables["v"])
  {
    var input, value := "$v", variables["v"];
    assert input[2..] == "" && input[1..][..1] == "v";
    assert VariableReference(input) == Some(Reference("v", 2));
    assert "" + value == value;
    assert Run(input, true, Bare, "", variables) == Run("", false, Bare, value, variables) == Some(value);
  }

  /** `v='a b'` and then `sha256sums=($v)`: the shell splits the value into two
      fields, and one element is reported. */
  lemma SplittingIsNotSeen()
    ensures var bash, script := Reading(BARE_V, ["a", "b"]),
              [Plainly(ScalarTo("v", Word(Some("'a b'")))), Plainly(ArrayOf(BARE_V))];
            && PureWords(bash) && ConfinedAssigns(bash) && NoAttributes(bash) && Plain(script)
            && AfterScript(NO_FACTS, script).values == map[SUMS := ["a b"]]
            && SUMS in Exec(bash, script, EMPTY).vars && Exec(bash, script, EMPTY).vars[SUMS] == Array(["a", "b"])
  {
    hide StaticWord, IsChecksumName, AfterStmt, ExecStmt, AfterAssign, ExecAssign, PureWords, ConfinedAssigns,
         NoAttributes;
    var bash := Reading(BARE_V, ["a", "b"]);
    var a, b := Plainly(ScalarTo("v", Word(Some("'a b'")))), Plainly(ArrayOf(BARE_V));
    TwoStmts(bash, a, b, EMPTY);
    NotChecksumNames();
    QuotedPairIsStatic(map[]);
    AfterScalarStmt(NO_FACTS, "v", Word(Some("'a b'")));
    var f, st := AfterStmt(NO_FACTS, a), ExecStmt(bash, a, EMPTY);
    assert f == NO_FACTS.(variables := map["v" := "a b"]);
    BareVariableIsStatic(f.variables);
    assert st.special == {} && !st.ended by { ScalarSetsNothing(bash, a, EMPTY); }
    OddWordIsReported(BARE_V, f, ["a", "b"], st);
  }

  lemma QuotedPairIsStatic(variables: map<string, string>)
    ensures StaticWord(Word(Some("'a b'")), variables) == Some("a b")
  {
    ShellQuoting.SingleQuotesRoundTrip("a b", variables);
    var s := "a b";
    assert s[1..] == " b" && s[1..][1..] == "b" && s[1..][1..][1..] == "";
    assert ShellQuoting.Apostrophes("b") == "b" && ShellQuoting.Apostrophes(" b") == " b"
      && ShellQuoting.Apostrophes(s) == s;
    assert ShellQuoting.SingleQuoted(s) == "'a b'";
  }

  lemma ScalarSetsNothing(bash: Bash, s: Stmt, st: Store)
    requires s == Plainly(ScalarTo("v", Word(Some("'a b'")))) && st.special == {} && !st.ended
               && bash.expand(Word(Some("'a b'")), st).1 == st
    ensures ExecStmt(bash, s, st).special == {} && !ExecStmt(bash, s, st).ended
  {
    ExecOne(bash, ScalarTo("v", Word(Some("'a b'"))), st);
  }

  /** `sha256sums=("'' #")`: one word in one field, with another value. */
  lemma MisreadWordsAreNotSeen()
    ensures var w := Word(Some("\"'' #\""));
            && ShellReading.ShellValue(w.printed.value, map[]) == Some("'' #")
            && AfterStmt(NO_FACTS, Plainly(ArrayOf(w))).values == map[SUMS := [""]]
            && SUMS in ExecStmt(Reading(w, ["'' #"]), Plainly(ArrayOf(w)), EMPTY).vars
            && ExecStmt(Reading(w, ["'' #"]), Plainly(ArrayOf(w)), EMPTY).vars[SUMS] == Array(["'' #"])
  {
    hide AfterStmt, ExecStmt, Run, ShellReading.Unquote;
    ShellReading.MisreadsApostrophe();
    OddWordIsReported(Word(Some("\"'' #\"")), NO_FACTS, ["'' #"], EMPTY);
  }
}
