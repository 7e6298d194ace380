/** What the results of StaticChecksums say about executions of the script.

    Bash itself is a parameter: what words expand to, what opaque commands and
    irregular assignments do, and whether the script goes on behind them.  A name's
    value is a scalar or an array. */
module StaticChecksumsSound {
  import opened Text
  import opened StaticChecksums

  datatype Value = Scalar(s: string) | Array(items: seq<string>)

  /** `written` is every name ever assigned; `special` the names with an
      attribute that changes what assigning them means; `ended` says that the
      script was left, by `return`, `exit`, `exec` or a failure that ends it. */
  datatype Store = Store(vars: map<string, Value>, written: set<string>, special: set<string>, ended: bool)

  /** `expand` gives a word's value as one string, `fields` as array elements;
      either may have effects and may end the script.  `irregular` is any assignment
      not spelled out below, also one whose words end the script; `command` is any
      other command. */
  datatype Bash = Bash(
    expand: (Word, Store) -> (string, Store),
    fields: (Word, Store) -> (seq<string>, Store),
    irregular: (Assign, Store) -> Store,
    command: (Stmt, Store) -> Store)

  // ---------------------------------------------------------------- execution

  /** What `$name` stands for: of an array, its first element. */
  function ScalarOf(v: Value): Option<string> {
    match v
    case Scalar(s) => Some(s)
    case Array(items) => if items == [] then None else Some(items[0])
  }

  function SetName(st: Store, name: string, v: Value): Store {
    st.(vars := st.vars[name := v], written := st.written + {name})
  }

  /** `name=v` or `name+=v`; of an array it changes the first element. */
  function AssignedScalar(st: Store, name: string, append: bool, v: string): Value {
    if name !in st.vars then Scalar(v)
    else
      match st.vars[name]
      case Scalar(s) => Scalar(if append then s + v else v)
      case Array(items) =>
        if items == [] then Array([v]) else Array([if append then items[0] + v else v] + items[1..])
  }

  function AssignedArray(st: Store, name: string, append: bool, items: seq<string>): Value {
    if !append || name !in st.vars then Array(items)
    else
      match st.vars[name]
      case Scalar(s) => Array([s] + items)
      case Array(first) => Array(first + items)
  }

  function ExecElements(bash: Bash, elements: seq<Element>, st: Store): (seq<string>, Store)
    requires forall i :: 0 <= i < |elements| ==> elements[i].value.Some?
  {
    if elements == [] then ([], st)
    else
      var (items, st1) := ExecElements(bash, elements[..|elements| - 1], st);
      if st1.ended then (items, st1)
      else
        var (more, st2) := bash.fields(elements[|elements| - 1].value.value, st1);
        (items + more, st2)
  }

  predicate PlainElements(elements: seq<Element>) {
    forall i :: 0 <= i < |elements| ==> !elements[i].indexed && elements[i].value.Some?
  }

  function ExecAssign(bash: Bash, a: Assign, st: Store): Store {
    if a.name.None? then st
    else if a.name.value in st.special then bash.irregular(a, st)
    else if IsScalar(a) then
      var (v, st1) := bash.expand(a.value.value, st);
      if st1.ended then bash.irregular(a, st)
      else SetName(st1, a.name.value, AssignedScalar(st1, a.name.value, a.append, v))
    else if IsArray(a) && PlainElements(a.items.value) then
      var (items, st1) := ExecElements(bash, a.items.value, st);
      if st1.ended then bash.irregular(a, st)
      else SetName(st1, a.name.value, AssignedArray(st1, a.name.value, a.append, items))
    else bash.irregular(a, st)
  }

  function ExecAssigns(bash: Bash, assigns: seq<Assign>, st: Store): Store {
    if assigns == [] then st
    else
      var before := ExecAssigns(bash, assigns[..|assigns| - 1], st);
      if before.ended then before else ExecAssign(bash, assigns[|assigns| - 1], before)
  }

  function NamesOf(assigns: seq<Assign>): set<string> {
    set i | 0 <= i < |assigns| && assigns[i].name.Some? :: assigns[i].name.value
  }

  /** A statement in the background runs in a subshell and changes nothing here. */
  function ExecStmt(bash: Bash, s: Stmt, st: Store): Store {
    if s.background then st
    else if Assignments(s) != [] then
      var st1 := ExecAssigns(bash, Assignments(s), st);
      if s.command.Decl? && s.command.attributes && !st1.ended then
        st1.(special := st1.special + NamesOf(Assignments(s)))
      else st1
    else if s.command.FuncDecl? then st
    else bash.command(s, st)
  }

  /** Nothing is executed once the script has ended. */
  function Exec(bash: Bash, script: seq<Stmt>, st: Store): Store {
    if script == [] then st
    else
      var before := Exec(bash, script[..|script| - 1], st);
      if before.ended then before else ExecStmt(bash, script[|script| - 1], before)
  }

  // ---------------------------------------------------------------- what a run has to be like

  /** The values the analysis has are those of the store, and the names are plain. */
  ghost predicate Knows(variables: map<string, string>, st: Store) {
    forall name :: name in variables ==>
      name in st.vars && name !in st.special && ScalarOf(st.vars[name]) == Some(variables[name])
  }

  /** Wherever the evaluator resolves the word, assigning it gives that value, and
      nothing else happens. */
  ghost predicate SoundScalar(bash: Bash, w: Word, st: Store) {
    forall variables: map<string, string> :: Knows(variables, st) && StaticWord(w, variables).Some? ==>
      bash.expand(w, st) == (StaticWord(w, variables).value, st)
  }

  /** Wherever the evaluator resolves the word, it is one array element with that
      value, and nothing else happens. */
  ghost predicate SoundElement(bash: Bash, w: Word, st: Store) {
    forall variables: map<string, string> :: Knows(variables, st) && StaticWord(w, variables).Some? ==>
      bash.fields(w, st) == ([StaticWord(w, variables).value], st)
  }

  ghost predicate OnlyChanges(before: Store, after: Store, name: string) {
    && after.vars - {name} == before.vars - {name}
    && after.written <= before.written + {name}
    && after.special - {name} == before.special - {name}
  }

  /** Where it is executed, the assignment is to a plain name and changes that name
      only.  Words with effects on other names, and assignments to names that are
      readonly, dynamic or references, are not of this kind. */
  ghost predicate ConfinedAssign(bash: Bash, a: Assign, st: Store) {
    a.name.Some? ==> a.name.value !in st.special && OnlyChanges(st, ExecAssign(bash, a, st), a.name.value)
  }

  /** The words that the analysis takes a value from are sound where they stand: the
      elements of a checksum array, and the value of any other scalar. */
  ghost predicate SoundAssign(bash: Bash, a: Assign, st: Store) {
    a.name.Some? ==>
      if IsChecksumName(a.name.value) then
        IsArray(a) ==> forall i :: 0 <= i < |a.items.value| && a.items.value[i].value.Some? ==>
          SoundElement(bash, a.items.value[i].value.value, st)
      else
        IsScalar(a) ==> SoundScalar(bash, a.value.value, st)
  }

  ghost predicate RegularAssigns(bash: Bash, assigns: seq<Assign>, st: Store) {
    assigns == [] ||
    var init, last := assigns[..|assigns| - 1], assigns[|assigns| - 1];
    var before := ExecAssigns(bash, init, st);
    && RegularAssigns(bash, init, st)
    && (!before.ended ==> ConfinedAssign(bash, last, before) && SoundAssign(bash, last, before))
  }

  /** It does not assign in the background nor while it sets attributes. */
  predicate PlainStmt(s: Stmt) {
    Assignments(s) != [] ==> !s.background && !(s.command.Decl? && s.command.attributes)
  }

  /** The assignments of the script are regular where this execution comes to them.
      Nothing is asked of any other command. */
  ghost predicate RegularRun(bash: Bash, script: seq<Stmt>, st: Store) {
    script == [] ||
    var init, last := script[..|script| - 1], script[|script| - 1];
    var before := Exec(bash, init, st);
    && RegularRun(bash, init, st)
    && (!before.ended ==> PlainStmt(last) && RegularAssigns(bash, Assignments(last), before))
  }

  // ---------------------------------------------------------------- soundness

  /** What the analysis says is true of the store. */
  ghost predicate Agrees(f: Facts, st: Store) {
    && (forall name :: name in f.values ==>
         IsChecksumName(name) && name in st.vars && st.vars[name] == Array(f.values[name]))
    && (forall name :: name in f.variables ==> !IsChecksumName(name))
    && Knows(f.variables, st)
    && Covers(f, st)
  }

  /** A checksum name that was written is reported or unresolved. */
  ghost predicate Covers(f: Facts, st: Store) {
    !f.unknownAll ==> forall name :: name in st.written && IsChecksumName(name) ==>
      name in f.values || name in f.unresolved
  }

  /** What is known after a scalar assignment was known before, but for the
      name itself. */
  lemma AfterScalarShape(a: Assign, variables: map<string, string>)
    requires a.name.Some?
    ensures var after, name := AfterScalar(a, variables), a.name.value;
            && (forall n :: n != name && n in after ==> n in variables && after[n] == variables[n])
            && (name in after ==>
                  && IsScalar(a) && StaticWord(a.value.value, variables).Some?
                  && var v := StaticWord(a.value.value, variables).value;
                     if a.append then name in variables && after[name] == variables[name] + v else after[name] == v)
  {
    hide StaticWord;
  }

  lemma ScalarAgrees(bash: Bash, f: Facts, a: Assign, st: Store)
    requires !st.ended && Agrees(f, st) && a.name.Some? && !IsChecksumName(a.name.value)
    requires ConfinedAssign(bash, a, st) && SoundAssign(bash, a, st)
    ensures Agrees(AfterAssign(f, a), ExecAssign(bash, a, st))
  {
    hide IsChecksumName, StaticWord, ExecElements, AfterScalar, ExecAssign, SoundScalar, SoundElement;
    var name, st1, after := a.name.value, ExecAssign(bash, a, st), AfterScalar(a, f.variables);
    OtherNames(st, st1, name);
    AfterScalarShape(a, f.variables);
    if name in after {
      KnownScalar(bash, f, a, st);
    }
    assert Knows(after, st1);
  }

  lemma KnownScalar(bash: Bash, f: Facts, a: Assign, st: Store)
    requires !st.ended && Knows(f.variables, st) && a.name.Some? && a.name.value !in st.special
    requires IsScalar(a) ==> SoundScalar(bash, a.value.value, st)
    requires a.name.value in AfterScalar(a, f.variables)
    ensures var st1 := ExecAssign(bash, a, st);
            && a.name.value in st1.vars && a.name.value !in st1.special
            && ScalarOf(st1.vars[a.name.value]) == Some(AfterScalar(a, f.variables)[a.name.value])
  {
    hide StaticWord, AfterScalar;
    AfterScalarShape(a, f.variables);
    var v := StaticWord(a.value.value, f.variables).value;
    assert bash.expand(a.value.value, st) == (v, st);
  }

  lemma OtherNames(before: Store, after: Store, name: string)
    requires OnlyChanges(before, after, name)
    ensures forall n :: n != name ==>
              (n in after.vars <==> n in before.vars) && (n in after.special <==> n in before.special)
    ensures forall n :: n != name && n in after.vars ==> after.vars[n] == before.vars[n]
  {
    assert forall n :: n != name ==> (n in after.vars <==> n in after.vars - {name});
    assert forall n :: n != name ==> (n in before.vars <==> n in before.vars - {name});
    assert forall n :: n != name && n in after.vars ==> after.vars[n] == (after.vars - {name})[n];
    assert forall n :: n != name && n in before.vars ==> before.vars[n] == (before.vars - {name})[n];
    assert forall n :: n != name ==> (n in after.special <==> n in after.special - {name});
    assert forall n :: n != name ==> (n in before.special <==> n in before.special - {name});
  }

  lemma {:induction false} ElementsAgree(bash: Bash, elements: seq<Element>, variables: map<string, string>, st: Store)
    requires !st.ended && Knows(variables, st) && StaticElements(elements, variables).Some?
    requires forall i :: 0 <= i < |elements| && elements[i].value.Some? ==>
               SoundElement(bash, elements[i].value.value, st)
    ensures PlainElements(elements)
    ensures ExecElements(bash, elements, st) == (StaticElements(elements, variables).value, st)
  {
    hide StaticWord, Knows;
    if elements != [] {
      var init, last := elements[..|elements| - 1], elements[|elements| - 1];
      ElementsAgree(bash, init, variables, st);
      assert elements == init + [last] && elements[|init|] == last;
      assert SoundElement(bash, last.value.value, st);
      assert bash.fields(last.value.value, st) == ([StaticWord(last.value.value, variables).value], st);
    }
  }

  lemma ChecksumAgrees(bash: Bash, f: Facts, a: Assign, st: Store)
    requires !st.ended && Agrees(f, st) && a.name.Some? && IsChecksumName(a.name.value)
    requires ConfinedAssign(bash, a, st) && SoundAssign(bash, a, st)
    ensures Agrees(AfterAssign(f, a), ExecAssign(bash, a, st))
  {
    hide IsChecksumName, StaticWord, ExecElements, StaticElements, ExecAssign, SoundElement, AfterChecksum;
    var name, st1 := a.name.value, ExecAssign(bash, a, st);
    OtherNames(st, st1, name);
    assert Knows(f.variables, st1);
    var g := AfterChecksum(f, a);
    AfterChecksumShape(f, a);
    if name in g.values {
      KnownArray(bash, f, a, st);
    }
  }

  /** The name is reported or unresolved; all else is as before. */
  lemma AfterChecksumShape(f: Facts, a: Assign)
    requires a.name.Some?
    ensures var g, name := AfterChecksum(f, a), a.name.value;
            && g.variables == f.variables && g.unknownAll == f.unknownAll
            && (name in g.values || name in g.unresolved)
            && (forall n :: n != name ==>
                  (n in g.values <==> n in f.values) && (n in g.unresolved <==> n in f.unresolved))
            && (forall n :: n != name && n in g.values ==> g.values[n] == f.values[n])
            && (name in g.values ==>
                  && StaticArray(a, f.variables).Some?
                  && var value := StaticArray(a, f.variables).value;
                     if a.append then name in f.values && g.values[name] == f.values[name] + value
                       else g.values[name] == value)
  {
    hide StaticArray;
  }

  lemma KnownArray(bash: Bash, f: Facts, a: Assign, st: Store)
    requires !st.ended && Agrees(f, st) && a.name.Some? && IsChecksumName(a.name.value) && a.name.value !in st.special
    requires SoundAssign(bash, a, st) && a.name.value in AfterChecksum(f, a).values
    ensures var st1 := ExecAssign(bash, a, st);
            a.name.value in st1.vars && st1.vars[a.name.value] == Array(AfterChecksum(f, a).values[a.name.value])
  {
    hide IsChecksumName, StaticWord, ExecElements, StaticElements, SoundElement, AfterChecksum;
    AfterChecksumShape(f, a);
    ElementsAgree(bash, a.items.value, f.variables, st);
  }

  lemma AssignAgrees(bash: Bash, f: Facts, a: Assign, st: Store)
    requires !st.ended && Agrees(f, st) && ConfinedAssign(bash, a, st) && SoundAssign(bash, a, st)
    ensures Agrees(AfterAssign(f, a), ExecAssign(bash, a, st))
  {
    hide IsChecksumName, Agrees, ConfinedAssign, SoundAssign, AfterChecksum, AfterScalar;
    if a.name.Some? {
      if IsChecksumName(a.name.value) { ChecksumAgrees(bash, f, a, st); } else { ScalarAgrees(bash, f, a, st); }
    }
  }

  lemma {:induction false} AssignsAgree(bash: Bash, f: Facts, assigns: seq<Assign>, st: Store)
    requires Agrees(f, st) && RegularAssigns(bash, assigns, st)
    ensures Covers(AfterAssigns(f, assigns), ExecAssigns(bash, assigns, st))
    ensures !ExecAssigns(bash, assigns, st).ended ==> Agrees(AfterAssigns(f, assigns), ExecAssigns(bash, assigns, st))
  {
    hide IsChecksumName, StaticWord, ExecAssign, Agrees, Covers, ConfinedAssign, SoundAssign, AfterAssign;
    if assigns == [] {
      AgreesCovers(f, st);
    } else {
      var init, last := assigns[..|assigns| - 1], assigns[|assigns| - 1];
      var g, before := AfterAssigns(f, init), ExecAssigns(bash, init, st);
      AssignsAgree(bash, f, init, st);
      if before.ended {
        AssignCovers(g, last, before);
      } else {
        AssignAgrees(bash, g, last, before);
        AgreesCovers(AfterAssign(g, last), ExecAssign(bash, last, before));
      }
    }
  }

  lemma AgreesCovers(f: Facts, st: Store)
    requires Agrees(f, st)
    ensures Covers(f, st)
  {
  }

  /** An assignment that is not executed leaves the written names covered. */
  lemma AssignCovers(f: Facts, a: Assign, st: Store)
    requires Covers(f, st)
    ensures Covers(AfterAssign(f, a), st)
  {
    hide IsChecksumName, AfterChecksum, AfterScalar;
    if a.name.Some? && IsChecksumName(a.name.value) {
      AfterChecksumShape(f, a);
    }
  }

  lemma {:induction false} AssignsCover(f: Facts, assigns: seq<Assign>, st: Store)
    requires Covers(f, st)
    ensures Covers(AfterAssigns(f, assigns), st)
  {
    hide Covers, AfterAssign;
    if assigns != [] {
      AssignsCover(f, assigns[..|assigns| - 1], st);
      AssignCovers(AfterAssigns(f, assigns[..|assigns| - 1]), assigns[|assigns| - 1], st);
    }
  }

  /** No checksum name was ever assigned. */
  ghost predicate Untouched(st: Store) {
    forall name :: name in st.written ==> !IsChecksumName(name)
  }

  lemma NothingKnown(st: Store)
    requires Untouched(st)
    ensures Agrees(NO_FACTS, st)
  {
  }

  /** Whatever opaque commands do: while the script has not ended, the store is as
      the analysis says; and at any time the checksum names that were written are
      reported or unresolved. */
  lemma {:induction false} ScriptAgrees(bash: Bash, script: seq<Stmt>, st: Store)
    requires RegularRun(bash, script, st) && Untouched(st)
    ensures Covers(AfterScript(NO_FACTS, script), Exec(bash, script, st))
    ensures !Exec(bash, script, st).ended ==> Agrees(AfterScript(NO_FACTS, script), Exec(bash, script, st))
  {
    hide RegularAssigns, ExecStmt, AfterStmt, Agrees, Covers, PlainStmt, Untouched;
    if script == [] {
      NothingKnown(st);
      AgreesCovers(NO_FACTS, st);
    } else {
      var init, last := script[..|script| - 1], script[|script| - 1];
      ScriptAgrees(bash, init, st);
      var f, before := AfterScript(NO_FACTS, init), Exec(bash, init, st);
      if before.ended {
        StmtCovers(f, last, before);
      } else {
        StmtAgrees(bash, f, last, before);
      }
    }
  }

  lemma StmtCovers(f: Facts, s: Stmt, st: Store)
    requires Covers(f, st)
    ensures Covers(AfterStmt(f, s), st)
  {
    hide IsChecksumName, AfterAssigns;
    if Assignments(s) != [] {
      AssignsCover(f, Assignments(s), st);
    }
  }

  lemma StmtAgrees(bash: Bash, f: Facts, s: Stmt, st: Store)
    requires Agrees(f, st) && !st.ended && PlainStmt(s) && RegularAssigns(bash, Assignments(s), st)
    ensures Covers(AfterStmt(f, s), ExecStmt(bash, s, st))
    ensures !ExecStmt(bash, s, st).ended ==> Agrees(AfterStmt(f, s), ExecStmt(bash, s, st))
  {
    hide IsChecksumName, RegularAssigns, ExecAssigns, AfterAssigns;
    if Assignments(s) != [] {
      AssignsAgree(bash, f, Assignments(s), st);
    }
  }

  // ---------------------------------------------------------------- reported arrays

  /** The name holds the array that is reported for it. */
  predicate Real(f: Facts, st: Store, name: string)
    requires name in f.values
  {
    name in st.vars && st.vars[name] == Array(f.values[name])
  }

  /** Among these assignments, the execution comes to the last one of the name. */
  predicate ComesWithin(bash: Bash, assigns: seq<Assign>, st: Store, name: string) {
    assigns != [] &&
    var init, last := assigns[..|assigns| - 1], assigns[|assigns| - 1];
    if last.name == Some(name) then !ExecAssigns(bash, init, st).ended else ComesWithin(bash, init, st, name)
  }

  /** The execution comes to the last assignment of the name. */
  predicate Comes(bash: Bash, script: seq<Stmt>, st: Store, name: string) {
    script != [] &&
    var init, last := script[..|script| - 1], script[|script| - 1];
    if name in NamesOf(Assignments(last)) then
      !Exec(bash, init, st).ended && ComesWithin(bash, Assignments(last), Exec(bash, init, st), name)
    else Comes(bash, init, st, name)
  }

  lemma AgreesIsReal(f: Facts, st: Store, name: string)
    requires Agrees(f, st) && name in f.values
    ensures Real(f, st, name) && IsChecksumName(name)
  {
  }

  /** Assigning another name changes neither the report nor the array. */
  lemma OtherAssign(bash: Bash, f: Facts, a: Assign, st: Store, name: string)
    requires a.name != Some(name) && ConfinedAssign(bash, a, st)
    ensures name in AfterAssign(f, a).values <==> name in f.values
    ensures name in f.values ==> AfterAssign(f, a).values[name] == f.values[name]
    ensures name in f.values ==> (Real(f, ExecAssign(bash, a, st), name) <==> Real(f, st, name))
  {
    hide IsChecksumName, AfterChecksum, AfterScalar, ExecAssign;
    if a.name.Some? {
      OtherReport(f, a, name);
      OtherNames(st, ExecAssign(bash, a, st), a.name.value);
    } else {
      assert ExecAssign(bash, a, st) == st by { NamelessAssign(bash, a, st); }
    }
  }

  lemma NamelessAssign(bash: Bash, a: Assign, st: Store)
    requires a.name.None?
    ensures ExecAssign(bash, a, st) == st
  {
  }

  lemma OtherReport(f: Facts, a: Assign, name: string)
    requires a.name != Some(name)
    ensures name in AfterAssign(f, a).values <==> name in f.values
    ensures name in f.values ==> AfterAssign(f, a).values[name] == f.values[name]
  {
    hide IsChecksumName, AfterChecksum, AfterScalar;
    if a.name.Some? {
      AfterChecksumShape(f, a);
    }
  }

  lemma {:induction false} RealWithin(bash: Bash, f: Facts, assigns: seq<Assign>, st: Store, name: string)
    requires Agrees(f, st) && RegularAssigns(bash, assigns, st) && ComesWithin(bash, assigns, st, name)
    requires name in AfterAssigns(f, assigns).values
    ensures Real(AfterAssigns(f, assigns), ExecAssigns(bash, assigns, st), name)
  {
    hide Agrees, AfterAssign, ExecAssign, ConfinedAssign, SoundAssign, Real;
    var init, last := assigns[..|assigns| - 1], assigns[|assigns| - 1];
    var g, before := AfterAssigns(f, init), ExecAssigns(bash, init, st);
    if last.name == Some(name) {
      AssignsAgree(bash, f, init, st);
      AssignAgrees(bash, g, last, before);
      AgreesIsReal(AfterAssign(g, last), ExecAssign(bash, last, before), name);
    } else {
      OtherReport(g, last, name);
      RealWithin(bash, f, init, st, name);
      if !before.ended {
        OtherAssign(bash, g, last, before, name);
      }
      SameReport(g, AfterAssign(g, last), ExecAssigns(bash, assigns, st), name);
    }
  }

  lemma SameReport(f: Facts, g: Facts, st: Store, name: string)
    requires name in f.values && name in g.values && g.values[name] == f.values[name]
    ensures Real(g, st, name) <==> Real(f, st, name)
  {
  }

  /** The array of other statements' names stays, whether they are executed or not. */
  lemma {:induction false} OtherAssigns(bash: Bash, f: Facts, assigns: seq<Assign>, st: Store, name: string)
    requires name !in NamesOf(assigns) && RegularAssigns(bash, assigns, st)
    ensures name in AfterAssigns(f, assigns).values <==> name in f.values
    ensures name in f.values ==>
              && AfterAssigns(f, assigns).values[name] == f.values[name]
              && (Real(f, st, name) ==> Real(f, ExecAssigns(bash, assigns, st), name))
  {
    hide AfterAssign, ExecAssign, ConfinedAssign, SoundAssign, Real;
    if assigns != [] {
      var init, last := assigns[..|assigns| - 1], assigns[|assigns| - 1];
      OtherNamesOf(assigns, name);
      OtherAssigns(bash, f, init, st, name);
      var g, before := AfterAssigns(f, init), ExecAssigns(bash, init, st);
      OtherReport(g, last, name);
      if !before.ended && name in f.values {
        OtherAssign(bash, g, last, before, name);
        SameReport(f, g, before, name);
        SameReport(f, g, ExecAssign(bash, last, before), name);
      }
    }
  }

  lemma OtherNamesOf(assigns: seq<Assign>, name: string)
    requires assigns != [] && name !in NamesOf(assigns)
    ensures name !in NamesOf(assigns[..|assigns| - 1]) && assigns[|assigns| - 1].name != Some(name)
  {
  }

  /** Not executed, these assignments change only what is reported for their names. */
  lemma {:induction false} OtherReports(f: Facts, assigns: seq<Assign>, name: string)
    requires name !in NamesOf(assigns)
    ensures name in AfterAssigns(f, assigns).values <==> name in f.values
    ensures name in f.values ==> AfterAssigns(f, assigns).values[name] == f.values[name]
  {
    hide AfterAssign;
    if assigns != [] {
      OtherNamesOf(assigns, name);
      OtherReports(f, assigns[..|assigns| - 1], name);
      OtherReport(AfterAssigns(f, assigns[..|assigns| - 1]), assigns[|assigns| - 1], name);
    }
  }

  /** Every array the analysis reports is the array the script ends up with,
      wherever it ends, if the execution comes to the last assignment of the name. */
  lemma {:induction false} ReportedArraysAreReal(bash: Bash, script: seq<Stmt>, st: Store, name: string)
    requires RegularRun(bash, script, st) && Untouched(st) && Comes(bash, script, st, name)
    requires name in AfterScript(NO_FACTS, script).values
    ensures Real(AfterScript(NO_FACTS, script), Exec(bash, script, st), name)
  {
    hide RegularAssigns, ExecStmt, AfterStmt, Agrees, PlainStmt, Real, ComesWithin, Untouched, NamesOf;
    var init, last := script[..|script| - 1], script[|script| - 1];
    var f, before := AfterScript(NO_FACTS, init), Exec(bash, init, st);
    if name in NamesOf(Assignments(last)) {
      ScriptAgrees(bash, init, st);
      AssigningStmt(bash, f, last, before, name);
    } else {
      OtherStmt(bash, f, last, before, name);
      ReportedArraysAreReal(bash, init, st, name);
    }
  }

  lemma AssigningStmt(bash: Bash, f: Facts, s: Stmt, st: Store, name: string)
    requires Agrees(f, st) && !st.ended && PlainStmt(s) && RegularAssigns(bash, Assignments(s), st)
    requires name in NamesOf(Assignments(s)) && ComesWithin(bash, Assignments(s), st, name)
    requires name in AfterStmt(f, s).values
    ensures Real(AfterStmt(f, s), ExecStmt(bash, s, st), name)
  {
    hide Agrees, RegularAssigns, ComesWithin, ExecAssigns, AfterAssigns, Real;
    RealWithin(bash, f, Assignments(s), st, name);
  }

  lemma OtherStmt(bash: Bash, f: Facts, s: Stmt, st: Store, name: string)
    requires name !in NamesOf(Assignments(s)) && name in AfterStmt(f, s).values
    ensures name in f.values && AfterStmt(f, s).values[name] == f.values[name]
    ensures !st.ended && PlainStmt(s) && RegularAssigns(bash, Assignments(s), st) && Real(f, st, name) ==>
              Real(AfterStmt(f, s), ExecStmt(bash, s, st), name)
    ensures Real(f, st, name) ==> Real(AfterStmt(f, s), st, name)
  {
    hide RegularAssigns, ExecAssigns, AfterAssigns, NamesOf;
    if Assignments(s) != [] {
      OtherReports(f, Assignments(s), name);
      if !st.ended && PlainStmt(s) && RegularAssigns(bash, Assignments(s), st) {
        OtherAssigns(bash, f, Assignments(s), st, name);
      }
    }
  }

  /** In particular, if it comes to the end. */
  lemma FinishedRunsAreReal(bash: Bash, script: seq<Stmt>, st: Store, name: string)
    requires RegularRun(bash, script, st) && Untouched(st) && !Exec(bash, script, st).ended
    requires name in AfterScript(NO_FACTS, script).values
    ensures Real(AfterScript(NO_FACTS, script), Exec(bash, script, st), name)
  {
    hide RegularRun, Agrees, Untouched;
    ScriptAgrees(bash, script, st);
    AgreesIsReal(AfterScript(NO_FACTS, script), Exec(bash, script, st), name);
  }

  /** A checksum name that is neither reported nor unresolved is never written,
      wherever the script ends. */
  lemma UnreportedNamesAreUnset(bash: Bash, script: seq<Stmt>, st: Store, name: string)
    requires RegularRun(bash, script, st) && Untouched(st) && IsChecksumName(name)
    requires name !in AfterScript(NO_FACTS, script).values && !Unresolved(AfterScript(NO_FACTS, script), name)
    ensures name !in Exec(bash, script, st).written
  {
    hide RegularRun, IsChecksumName, Agrees;
    ScriptAgrees(bash, script, st);
  }

  // ---------------------------------------------------------------- when the script ends early

  lemma {:induction false} NothingFollows(bash: Bash, script: seq<Stmt>, st: Store, n: nat)
    requires n <= |script| && Exec(bash, script[..n], st).ended
    ensures Exec(bash, script, st) == Exec(bash, script[..n], st)
  {
    hide ExecStmt;
    if n == |script| {
      assert script[..n] == script;
    } else {
      assert script[..|script| - 1][..n] == script[..n];
      NothingFollows(bash, script[..|script| - 1], st, n);
    }
  }

  lemma {:induction false} RegularSoFar(bash: Bash, script: seq<Stmt>, st: Store, n: nat)
    requires n <= |script| && RegularRun(bash, script, st)
    ensures RegularRun(bash, script[..n], st)
  {
    hide PlainStmt, RegularAssigns, Exec;
    if n == |script| {
      assert script[..n] == script;
    } else {
      assert script[..|script| - 1][..n] == script[..n];
      RegularSoFar(bash, script[..|script| - 1], st, n);
    }
  }

  /** Statement `n` ends the script and, like `return`, leaves the variables alone.
      Then what is reported for a name is real if and only if the same would be
      reported for the statements before, if anything is. */
  lemma StopMattersExactly(bash: Bash, script: seq<Stmt>, st: Store, name: string, n: nat)
    requires n < |script| && RegularRun(bash, script, st) && Untouched(st)
    requires name in AfterScript(NO_FACTS, script).values && name in AfterScript(NO_FACTS, script[..n]).values
    requires !Exec(bash, script[..n], st).ended && Exec(bash, script[..n + 1], st).ended
    requires Exec(bash, script[..n + 1], st).vars == Exec(bash, script[..n], st).vars
    ensures Real(AfterScript(NO_FACTS, script), Exec(bash, script, st), name) <==>
            AfterScript(NO_FACTS, script).values[name] == AfterScript(NO_FACTS, script[..n]).values[name]
  {
    hide Exec, AfterScript, RegularRun, Untouched, Agrees;
    NothingFollows(bash, script, st, n + 1);
    RegularSoFar(bash, script, st, n);
    ScriptAgrees(bash, script[..n], st);
    AgreesIsReal(AfterScript(NO_FACTS, script[..n]), Exec(bash, script[..n], st), name);
  }
}
