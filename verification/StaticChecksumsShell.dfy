/** Scripts whose words leave the shell no choice: for them the word-level demands
    of StaticChecksumsSound hold by the look of the words alone.

    Of Bash it is assumed that it follows the Shell Command Language where a word
    has one reading there: sections 2.2, 2.3 and 2.6 of the POSIX.1-2017 Shell
    Command Language, and no brace expansion. */
module StaticChecksumsShell {
  import opened Text
  import opened ShellWord
  import opened ShellReading
  import opened StaticChecksums
  import opened StaticChecksumsSound

  // ---------------------------------------------------------------- what a word looks like

  /** Unquoted, these may turn a word into none, several or other fields: parameter
      expansion, patterns, braces, tildes and white space. */
  const FIELD_ACTIVE := "$*?[{~ \t\n"

  /** Unquoted, these may change what is assigned to a scalar. */
  const VALUE_ACTIVE := "~ \t\n"

  /** None of the characters stands in `rest` unquoted. */
  predicate Inert(rest: string, quote: Quote, active: string)
    decreases |rest|
  {
    rest == "" ||
    var c, tail := rest[0], rest[1..];
    if quote.Single? then Inert(tail, if c == '\'' then Bare else Single, active)
    else if c == '\'' then Inert(tail, if quote.Bare? then Single else Double, active)
    else if c == '"' then Inert(tail, if quote.Double? then Bare else Double, active)
    else if c == '\\' then tail == "" || Inert(tail[1..], quote, active)
    else !(quote.Bare? && c in active) && Inert(tail, quote, active)
  }

  predicate OneField(text: string) {
    text != "" && text[0] != '#' && Inert(text, Bare, FIELD_ACTIVE)
  }

  predicate OneValue(text: string) {
    text != "" && text[0] != '#' && Inert(text, Bare, VALUE_ACTIVE)
  }

  // ---------------------------------------------------------------- what Bash makes of it

  /** The plain names that have a scalar value, with it. */
  function Known(st: Store): map<string, string> {
    map name | name in st.vars && name !in st.special && ScalarOf(st.vars[name]).Some? :: ScalarOf(st.vars[name]).value
  }

  /** Where the quoting rules and the plain variables give a word a value, and
      nothing in it can turn it into anything but one field, Bash has that value. */
  ghost predicate FollowsShell(bash: Bash) {
    forall text: string, st: Store :: ShellValue(text, Known(st)).Some? ==>
      var v := ShellValue(text, Known(st)).value;
      && (OneField(text) ==> bash.fields(Word(Some(text)), st) == ([v], st))
      && (OneValue(text) ==> bash.expand(Word(Some(text)), st) == (v, st))
  }

  lemma ResolvedIsTheShells(text: string, variables: map<string, string>, st: Store)
    requires ReadsAlike(text, true, true, Bare) && Knows(variables, st) && StaticWord(Word(Some(text)), variables).Some?
    ensures ShellValue(text, Known(st)) == StaticWord(Word(Some(text)), variables)
  {
    hide Run, Unquote, ReadsAlike;
    var v := StaticWord(Word(Some(text)), variables).value;
    RunGrows(text, true, Bare, "", variables, Known(st));
    AgreesWithTheShell(text, Known(st), v);
  }

  /** Bash and the evaluator agree on such an array element. */
  predicate PlainElement(w: Word) {
    w.printed.Some? ==> OneField(w.printed.value) && ReadsAlike(w.printed.value, true, true, Bare)
  }

  /** Bash and the evaluator agree on such a value. */
  predicate PlainValue(w: Word) {
    w.printed.Some? ==> OneValue(w.printed.value) && ReadsAlike(w.printed.value, true, true, Bare)
  }

  /** Words like command substitutions, which the evaluator gives up on. */
  ghost predicate NeverResolved(w: Word) {
    forall variables: map<string, string> :: StaticWord(w, variables).None?
  }

  lemma PlainElementIsSound(bash: Bash, w: Word, st: Store)
    requires FollowsShell(bash) && (PlainElement(w) || NeverResolved(w))
    ensures SoundElement(bash, w, st)
  {
    hide StaticWord, ReadsAlike, OneField, OneValue, Knows, ShellValue;
    forall variables: map<string, string> | Knows(variables, st) && StaticWord(w, variables).Some?
      ensures bash.fields(w, st) == ([StaticWord(w, variables).value], st)
    {
      if w.printed.Some? {
        ResolvedIsTheShells(w.printed.value, variables, st);
        assert w == Word(Some(w.printed.value));
      } else {
        UnprintedIsNotStatic(w, variables);
      }
    }
  }

  lemma PlainValueIsSound(bash: Bash, w: Word, st: Store)
    requires FollowsShell(bash) && (PlainValue(w) || NeverResolved(w))
    ensures SoundScalar(bash, w, st)
  {
    hide StaticWord, ReadsAlike, OneField, OneValue, Knows, ShellValue;
    forall variables: map<string, string> | Knows(variables, st) && StaticWord(w, variables).Some?
      ensures bash.expand(w, st) == (StaticWord(w, variables).value, st)
    {
      if w.printed.Some? {
        ResolvedIsTheShells(w.printed.value, variables, st);
        assert w == Word(Some(w.printed.value));
      } else {
        UnprintedIsNotStatic(w, variables);
      }
    }
  }

  lemma UnprintedIsNotStatic(w: Word, variables: map<string, string>)
    requires w.printed.None?
    ensures StaticWord(w, variables).None?
  {
  }

  // ---------------------------------------------------------------- plain scripts

  /** The elements of checksum arrays, and the values of other scalars, are plain. */
  ghost predicate PlainAssign(a: Assign) {
    a.name.Some? ==>
      if IsChecksumName(a.name.value) then
        IsArray(a) ==> forall i :: 0 <= i < |a.items.value| && a.items.value[i].value.Some? ==>
          PlainElement(a.items.value[i].value.value) || NeverResolved(a.items.value[i].value.value)
      else
        IsScalar(a) ==> PlainValue(a.value.value) || NeverResolved(a.value.value)
  }

  /** By its text alone: every assignment is in the foreground, sets no attributes
      and takes its values from plain words. */
  ghost predicate PlainScript(script: seq<Stmt>) {
    forall i :: 0 <= i < |script| ==>
      PlainStmt(script[i]) && forall j :: 0 <= j < |Assignments(script[i])| ==> PlainAssign(Assignments(script[i])[j])
  }

  ghost predicate ConfinedAssignments(bash: Bash, assigns: seq<Assign>, st: Store) {
    assigns == [] ||
    var init, last := assigns[..|assigns| - 1], assigns[|assigns| - 1];
    var before := ExecAssigns(bash, init, st);
    ConfinedAssignments(bash, init, st) && (!before.ended ==> ConfinedAssign(bash, last, before))
  }

  /** In this execution every assignment is to a plain name and changes only it. */
  ghost predicate ConfinedRun(bash: Bash, script: seq<Stmt>, st: Store) {
    script == [] ||
    var init, last := script[..|script| - 1], script[|script| - 1];
    var before := Exec(bash, init, st);
    ConfinedRun(bash, init, st) && (!before.ended ==> ConfinedAssignments(bash, Assignments(last), before))
  }

  lemma AssignIsSound(bash: Bash, a: Assign, st: Store)
    requires FollowsShell(bash) && PlainAssign(a)
    ensures SoundAssign(bash, a, st)
  {
    hide SoundElement, SoundScalar, PlainElement, PlainValue, NeverResolved, FollowsShell, IsChecksumName;
    if a.name.Some? && IsChecksumName(a.name.value) && IsArray(a) {
      forall i | 0 <= i < |a.items.value| && a.items.value[i].value.Some?
        ensures SoundElement(bash, a.items.value[i].value.value, st)
      {
        PlainElementIsSound(bash, a.items.value[i].value.value, st);
      }
    } else if a.name.Some? && !IsChecksumName(a.name.value) && IsScalar(a) {
      PlainValueIsSound(bash, a.value.value, st);
    }
  }

  lemma {:induction false} AssignsAreRegular(bash: Bash, assigns: seq<Assign>, st: Store)
    requires FollowsShell(bash) && (forall i :: 0 <= i < |assigns| ==> PlainAssign(assigns[i]))
    requires ConfinedAssignments(bash, assigns, st)
    ensures RegularAssigns(bash, assigns, st)
  {
    hide PlainAssign, ConfinedAssign, SoundAssign, FollowsShell, ExecAssigns;
    if assigns != [] {
      AssignsAreRegular(bash, assigns[..|assigns| - 1], st);
      AssignIsSound(bash, assigns[|assigns| - 1], ExecAssigns(bash, assigns[..|assigns| - 1], st));
    }
  }

  lemma {:induction false} PlainRunsAreRegular(bash: Bash, script: seq<Stmt>, st: Store)
    requires FollowsShell(bash) && PlainScript(script) && ConfinedRun(bash, script, st)
    ensures RegularRun(bash, script, st)
  {
    hide PlainAssign, ConfinedAssignments, FollowsShell, RegularAssigns, PlainStmt;
    if script != [] {
      var init, last := script[..|script| - 1], script[|script| - 1];
      assert forall i :: 0 <= i < |init| ==> init[i] == script[i];
      PlainRunsAreRegular(bash, init, st);
      if !Exec(bash, init, st).ended {
        AssignsAreRegular(bash, Assignments(last), Exec(bash, init, st));
      }
    }
  }

  /** A plain script whose execution comes to the last assignment of a reported array
      ends up with that array, and no execution writes a checksum name that is
      neither reported nor unresolved. */
  lemma PlainScriptsAreReadTruly(bash: Bash, script: seq<Stmt>, st: Store, name: string)
    requires FollowsShell(bash) && PlainScript(script) && ConfinedRun(bash, script, st) && Untouched(st)
    ensures var f, after := AfterScript(NO_FACTS, script), Exec(bash, script, st);
            && (name in f.values && Comes(bash, script, st, name) ==> Real(f, after, name))
            && (IsChecksumName(name) && name !in f.values && !Unresolved(f, name) ==> name !in after.written)
  {
    hide FollowsShell, PlainScript, ConfinedRun, RegularRun, IsChecksumName, Real, Comes;
    PlainRunsAreRegular(bash, script, st);
    if name in AfterScript(NO_FACTS, script).values {
      if Comes(bash, script, st, name) {
        ReportedArraysAreReal(bash, script, st, name);
      }
    } else if IsChecksumName(name) && !Unresolved(AfterScript(NO_FACTS, script), name) {
      UnreportedNamesAreUnset(bash, script, st, name);
    }
  }

  // ---------------------------------------------------------------- static scripts

  /** The analysis knows the assigned value, and takes it from plain words. */
  ghost predicate StaticAssign(a: Assign, variables: map<string, string>) {
    && a.name.Some? && PlainAssign(a)
    && if IsChecksumName(a.name.value) then StaticArray(a, variables).Some?
       else IsScalar(a) && StaticWord(a.value.value, variables).Some?
  }

  ghost predicate StaticAssigns(f: Facts, assigns: seq<Assign>) {
    assigns == [] ||
    var init, last := assigns[..|assigns| - 1], assigns[|assigns| - 1];
    StaticAssigns(f, init) && StaticAssign(last, AfterAssigns(f, init).variables)
  }

  /** By its text alone: it does nothing in the foreground but define functions and
      assign what the analysis knows. */
  ghost predicate StaticScript(script: seq<Stmt>) {
    script == [] ||
    var init, last := script[..|script| - 1], script[|script| - 1];
    && StaticScript(init) && PlainStmt(last)
    && (Assignments(last) == [] ==> last.command.FuncDecl? || last.background)
    && StaticAssigns(AfterScript(NO_FACTS, init), Assignments(last))
  }

  /** None of the assigned names is special. */
  predicate OrdinaryNames(script: seq<Stmt>, st: Store) {
    forall i :: 0 <= i < |script| ==> NamesOf(Assignments(script[i])) !! st.special
  }

  lemma StaticAssignIsRegular(bash: Bash, f: Facts, a: Assign, st: Store)
    requires FollowsShell(bash) && StaticAssign(a, f.variables) && Knows(f.variables, st)
    requires !st.ended && a.name.value !in st.special
    ensures SoundAssign(bash, a, st) && ConfinedAssign(bash, a, st)
    ensures !ExecAssign(bash, a, st).ended && ExecAssign(bash, a, st).special == st.special
  {
    hide IsChecksumName, FollowsShell, PlainAssign, StaticWord, Knows, StaticElements, ExecElements, SoundElement;
    AssignIsSound(bash, a, st);
    if IsChecksumName(a.name.value) {
      ElementsAgree(bash, a.items.value, f.variables, st);
    } else {
      assert bash.expand(a.value.value, st).1 == st;
    }
  }

  lemma {:induction false} StaticAssignsAreRegular(bash: Bash, f: Facts, assigns: seq<Assign>, st: Store)
    requires FollowsShell(bash) && StaticAssigns(f, assigns) && Agrees(f, st)
    requires !st.ended && NamesOf(assigns) !! st.special
    ensures RegularAssigns(bash, assigns, st)
    ensures !ExecAssigns(bash, assigns, st).ended && ExecAssigns(bash, assigns, st).special == st.special
  {
    hide FollowsShell, StaticAssign, Agrees, ExecAssign, ConfinedAssign, SoundAssign;
    if assigns != [] {
      var init, last := assigns[..|assigns| - 1], assigns[|assigns| - 1];
      LastName(assigns, st.special);
      StaticAssignsAreRegular(bash, f, init, st);
      AssignsAgree(bash, f, init, st);
      var g, before := AfterAssigns(f, init), ExecAssigns(bash, init, st);
      AgreesKnows(g, before);
      assert last.name.Some? by { StaticIsNamed(last, g.variables); }
      StaticAssignIsRegular(bash, g, last, before);
    }
  }

  lemma StaticIsNamed(a: Assign, variables: map<string, string>)
    requires StaticAssign(a, variables)
    ensures a.name.Some?
  {
  }

  lemma AgreesKnows(f: Facts, st: Store)
    requires Agrees(f, st)
    ensures Knows(f.variables, st)
  {
  }

  lemma LastName(assigns: seq<Assign>, special: set<string>)
    requires assigns != [] && NamesOf(assigns) !! special
    ensures NamesOf(assigns[..|assigns| - 1]) !! special
    ensures assigns[|assigns| - 1].name.Some? ==> assigns[|assigns| - 1].name.value !in special
  {
    var init, last := assigns[..|assigns| - 1], assigns[|assigns| - 1];
    assert NamesOf(init) <= NamesOf(assigns);
    assert last.name.Some? ==> last.name.value in NamesOf(assigns);
  }

  lemma {:induction false} StaticRunsAreRegular(bash: Bash, script: seq<Stmt>, st: Store)
    requires FollowsShell(bash) && StaticScript(script) && Untouched(st) && !st.ended && OrdinaryNames(script, st)
    ensures RegularRun(bash, script, st)
    ensures !Exec(bash, script, st).ended && Exec(bash, script, st).special == st.special
  {
    hide FollowsShell, StaticAssigns, Untouched, Agrees, RegularAssigns, ExecAssigns, NamesOf;
    if script != [] {
      var init, last := script[..|script| - 1], script[|script| - 1];
      assert forall i :: 0 <= i < |init| ==> init[i] == script[i];
      StaticRunsAreRegular(bash, init, st);
      ScriptAgrees(bash, init, st);
      assert OrdinaryNames(script, st) && last == script[|script| - 1];
      StaticAssignsAreRegular(bash, AfterScript(NO_FACTS, init), Assignments(last), Exec(bash, init, st));
    }
  }

  /** For a static script nothing is asked of the execution: every reported array is
      the array it ends up with, and nothing unreported is written. */
  lemma StaticScriptsAreReadTruly(bash: Bash, script: seq<Stmt>, st: Store, name: string)
    requires FollowsShell(bash) && StaticScript(script) && Untouched(st) && !st.ended && OrdinaryNames(script, st)
    ensures var f, after := AfterScript(NO_FACTS, script), Exec(bash, script, st);
            && (name in f.values ==> Real(f, after, name))
            && (IsChecksumName(name) && name !in f.values && !Unresolved(f, name) ==> name !in after.written)
  {
    hide FollowsShell, StaticScript, RegularRun, IsChecksumName, Real, Untouched, OrdinaryNames;
    StaticRunsAreRegular(bash, script, st);
    if name in AfterScript(NO_FACTS, script).values {
      FinishedRunsAreReal(bash, script, st, name);
    } else if IsChecksumName(name) && !Unresolved(AfterScript(NO_FACTS, script), name) {
      UnreportedNamesAreUnset(bash, script, st, name);
    }
  }

  // ---------------------------------------------------------------- exactly which arrays

  /** One field with a value in the shell, and no apostrophe inside double quotes. */
  predicate TellingElement(e: Element, st: Store) {
    && !e.indexed && e.value.Some? && e.value.value.printed.Some?
    && var text := e.value.value.printed.value;
    OneField(text) && NoInnerApostrophe(text, true, Bare) && ShellValue(text, Known(st)).Some?
  }

  predicate ElementReadsAlike(e: Element) {
    e.value.Some? && e.value.value.printed.Some? && ReadsAlike(e.value.value.printed.value, true, true, Bare)
  }

  lemma ElementExactly(bash: Bash, e: Element, variables: map<string, string>, st: Store)
    requires FollowsShell(bash) && TellingElement(e, st) && Knows(variables, st)
    requires StaticWord(e.value.value, variables).Some?
    ensures |bash.fields(e.value.value, st).0| == 1 && bash.fields(e.value.value, st).1 == st
    ensures bash.fields(e.value.value, st).0[0] == StaticWord(e.value.value, variables).value <==> ElementReadsAlike(e)
  {
    hide Run, Unquote, ReadsAlike, NoInnerApostrophe, OneField, OneValue;
    var text := e.value.value.printed.value;
    RunGrows(text, true, Bare, "", variables, Known(st));
    ValueIsTheShellsExactly(text, Known(st));
    assert e.value.value == Word(Some(text));
    assert bash.fields(Word(Some(text)), st) == ([ShellValue(text, Known(st)).value], st);
  }

  /** Where the analysis has a value for an array of such words, Bash has the same
      value if and only if none of the words has one of the other three spots. */
  lemma {:induction false} ArrayIsTrueExactly(bash: Bash, elements: seq<Element>, variables: map<string, string>,
                                              st: Store)
    requires FollowsShell(bash) && Knows(variables, st) && !st.ended && PlainElements(elements)
    requires forall i :: 0 <= i < |elements| ==> TellingElement(elements[i], st)
    requires StaticElements(elements, variables).Some?
    ensures |ExecElements(bash, elements, st).0| == |StaticElements(elements, variables).value| == |elements|
    ensures ExecElements(bash, elements, st).1 == st
    ensures ExecElements(bash, elements, st).0 == StaticElements(elements, variables).value <==>
            forall i :: 0 <= i < |elements| ==> ElementReadsAlike(elements[i])
  {
    hide FollowsShell, StaticWord, Knows, ElementReadsAlike;
    if elements != [] {
      var init, last := elements[..|elements| - 1], elements[|elements| - 1];
      assert forall i :: 0 <= i < |init| ==> init[i] == elements[i];
      assert TellingElement(last, st);
      ArrayIsTrueExactly(bash, init, variables, st);
      ElementExactly(bash, last, variables, st);
      var ours, theirs := StaticElements(init, variables).value, ExecElements(bash, init, st).0;
      OneMoreElement(ours, theirs, StaticWord(last.value.value, variables).value, bash.fields(last.value.value, st).0);
      assert (forall i :: 0 <= i < |elements| ==> ElementReadsAlike(elements[i])) <==>
             (forall i :: 0 <= i < |init| ==> ElementReadsAlike(init[i])) && ElementReadsAlike(last);
    }
  }

  lemma OneMoreElement(ours: seq<string>, theirs: seq<string>, v: string, fields: seq<string>)
    requires |ours| == |theirs| && |fields| == 1
    ensures theirs + fields == ours + [v] <==> theirs == ours && fields[0] == v
  {
    var n := |ours|;
    if theirs + fields == ours + [v] {
      assert (theirs + fields)[..n] == theirs && (ours + [v])[..n] == ours;
      assert (theirs + fields)[n] == fields[0] && (ours + [v])[n] == v;
    }
  }

  // ---------------------------------------------------------------- such a Bash exists

  function ValueOr(text: string, st: Store): string {
    match ShellValue(text, Known(st)) case Some(v) => v case None => ""
  }

  function PlainExpand(w: Word, st: Store): string {
    match w.printed case Some(text) => ValueOr(text, st) case None => ""
  }

  /** Reads every word by the quoting rules and runs no command. */
  const READER := Bash(
    (w: Word, st: Store) => (PlainExpand(w, st), st),
    (w: Word, st: Store) => ([PlainExpand(w, st)], st),
    (a: Assign, st: Store) => st,
    (s: Stmt, st: Store) => st)

  lemma ReaderFollowsTheShell()
    ensures FollowsShell(READER)
  {
    hide Unquote, OneField, OneValue;
    forall text: string, st: Store | ShellValue(text, Known(st)).Some?
      ensures READER.fields(Word(Some(text)), st) == ([ShellValue(text, Known(st)).value], st)
      ensures READER.expand(Word(Some(text)), st) == (ShellValue(text, Known(st)).value, st)
    {
    }
  }
}
