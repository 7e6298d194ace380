/** What the analysis of StaticChecksums does know: which arrays it reports, and when
    it gives up (internal/brief/scanner.go 765 and 953-1069). */
module StaticChecksumsComplete {
  import opened Text
  import ShellWord
  import opened StaticChecksums
  import opened StaticChecksumsSound

  // ---------------------------------------------------------------- checksum names

  /** A letter, a digit or an underscore. */
  predicate WordCharacter(c: char) {
    'A' <= c <= 'Z' || 'a' <= c <= 'z' || '0' <= c <= '9' || c == '_'
  }

  predicate WordCharacters(s: string) {
    forall i :: 0 <= i < |s| ==> WordCharacter(s[i])
  }

  /** An algorithm and `sums`, with an architecture or without. */
  predicate NamesSums(name: string, algorithm: string, architecture: Option<string>) {
    && algorithm in {"b2", "md5", "sha1", "sha224", "sha256", "sha384", "sha512"}
    && (architecture.Some? ==> architecture.value != "" && WordCharacters(architecture.value))
    && name == algorithm + "sums" + if architecture.None? then "" else "_" + architecture.value
  }

  lemma ChecksumNamesExactly(name: string)
    ensures IsChecksumName(name) <==> exists algorithm, architecture :: NamesSums(name, algorithm, architecture)
  {
    hide HasPrefix, NamesSums, IsSuffixOfName;
    if IsChecksumName(name) {
      var k :| 0 <= k < |ALGORITHMS| && HasPrefix(name, ALGORITHMS[k] + "sums") &&
               IsSuffixOfName(name[|ALGORITHMS[k]| + 4..]);
      HasPrefixMeansPrefix(name, ALGORITHMS[k] + "sums");
      var suffix := name[|ALGORITHMS[k]| + 4..];
      Listed(k);
      assert name == ALGORITHMS[k] + "sums" + suffix;
      var architecture := SuffixNames(name, ALGORITHMS[k], suffix);
      assert NamesSums(name, ALGORITHMS[k], architecture);
    }
    if algorithm, architecture :| NamesSums(name, algorithm, architecture) {
      SumsAreNamed(name, algorithm, architecture);
    }
  }

  lemma Listed(k: nat)
    requires k < |ALGORITHMS|
    ensures ALGORITHMS[k] in {"b2", "md5", "sha1", "sha224", "sha256", "sha384", "sha512"}
  {
  }

  lemma SuffixNames(name: string, algorithm: string, suffix: string) returns (architecture: Option<string>)
    requires algorithm in {"b2", "md5", "sha1", "sha224", "sha256", "sha384", "sha512"}
    requires IsSuffixOfName(suffix) && name == algorithm + "sums" + suffix
    ensures NamesSums(name, algorithm, architecture)
  {
    if suffix == "" {
      architecture := None;
    } else {
      var rest := suffix[1..];
      architecture := Some(rest);
      assert forall i :: 0 <= i < |rest| ==> rest[i] == suffix[i + 1];
      assert suffix == ['_'] + rest;
    }
  }

  lemma SumsAreNamed(name: string, algorithm: string, architecture: Option<string>)
    requires NamesSums(name, algorithm, architecture)
    ensures IsChecksumName(name)
  {
    hide HasPrefix;
    var suffix := if architecture.None? then "" else "_" + architecture.value;
    assert name[|algorithm| + 4..] == suffix;
    HasPrefixMeansPrefix(name, algorithm + "sums");
    forall i | 1 <= i < |suffix| ensures ShellWord.IsNameChar(suffix[i]) {
      assert suffix[i] == architecture.value[i - 1];
    }
    assert IsSuffixOfName(suffix);
    var k := IndexOf(algorithm);
    assert ALGORITHMS[k] == algorithm;
  }

  lemma IndexOf(algorithm: string) returns (k: nat)
    requires algorithm in {"b2", "md5", "sha1", "sha224", "sha256", "sha384", "sha512"}
    ensures k < |ALGORITHMS| && ALGORITHMS[k] == algorithm
  {
    assert ALGORITHMS[0] == "b2" && ALGORITHMS[1] == "md5" && ALGORITHMS[2] == "sha1" && ALGORITHMS[3] == "sha224";
    assert ALGORITHMS[4] == "sha256" && ALGORITHMS[5] == "sha384" && ALGORITHMS[6] == "sha512";
    k :| k < |ALGORITHMS| && ALGORITHMS[k] == algorithm;
  }

  // ---------------------------------------------------------------- functions are inert

  function WithoutFunctions(script: seq<Stmt>): seq<Stmt> {
    if script == [] then []
    else
      var init, last := WithoutFunctions(script[..|script| - 1]), script[|script| - 1];
      if last.command.FuncDecl? then init else init + [last]
  }

  /** A script leaves the same facts without its function declarations. */
  lemma {:induction false} FunctionsAreInert(f: Facts, script: seq<Stmt>)
    ensures AfterScript(f, WithoutFunctions(script)) == AfterScript(f, script)
  {
    if script != [] {
      var init, last := script[..|script| - 1], script[|script| - 1];
      FunctionsAreInert(f, init);
      if !last.command.FuncDecl? {
        hide AfterStmt;
        var kept := WithoutFunctions(init);
        assert (kept + [last])[..|kept + [last]| - 1] == kept;
      }
    }
  }

  // ---------------------------------------------------------------- when the analysis gives up

  /** It does nothing but assign, in the foreground or not. */
  predicate Assigns(s: Stmt) {
    || (s.command.Call? && s.command.argCount == 0 && s.command.assigns != [])
    || (s.command.Decl? && s.command.args != [])
  }

  /** Every name is unknown exactly when some statement neither assigns only nor
      declares a function. */
  lemma {:induction false} GivesUpExactly(script: seq<Stmt>)
    ensures AfterScript(NO_FACTS, script).unknownAll <==>
            exists s :: s in script && !Assigns(s) && !s.command.FuncDecl?
  {
    if script != [] {
      var init, last := script[..|script| - 1], script[|script| - 1];
      GivesUpExactly(init);
      assert script == init + [last];
      AssignsOnly(AfterScript(NO_FACTS, init), last);
    }
  }

  lemma AssignsOnly(f: Facts, s: Stmt)
    ensures Assigns(s) <==> Assignments(s) != []
    ensures AfterStmt(f, s).unknownAll <==> f.unknownAll || (!Assigns(s) && !s.command.FuncDecl?)
  {
    hide AfterAssigns;
    SameUnknown(f, Assignments(s));
  }

  lemma {:induction false} SameUnknown(f: Facts, assigns: seq<Assign>)
    ensures AfterAssigns(f, assigns).unknownAll == f.unknownAll
  {
    hide IsChecksumName;
    if assigns != [] {
      SameUnknown(f, assigns[..|assigns| - 1]);
    }
  }

  // ---------------------------------------------------------------- which arrays are reported

  /** A plain array of at most 4096 words that the evaluator knows, with their values. */
  predicate KnownItems(a: Assign, variables: map<string, string>, values: seq<string>) {
    && !a.indexed && a.value.None? && a.items.Some? && |a.items.value| == |values| <= 4096
    && forall i :: 0 <= i < |values| ==>
         var e := a.items.value[i];
         !e.indexed && e.value.Some? && StaticWord(e.value.value, variables) == Some(values[i])
  }

  lemma {:induction false} ElementsExactly(elements: seq<Element>, variables: map<string, string>, values: seq<string>)
    requires |elements| == |values|
    ensures StaticElements(elements, variables) == Some(values) <==>
            forall i :: 0 <= i < |values| ==>
              !elements[i].indexed && elements[i].value.Some? &&
              StaticWord(elements[i].value.value, variables) == Some(values[i])
  {
    hide StaticWord;
    if values != [] {
      var n := |values| - 1;
      var init, last, some := elements[..n], elements[n], values[..n];
      ElementsExactly(init, variables, some);
      assert values == some + [values[n]];
      if StaticElements(elements, variables) == Some(values) {
        var before := StaticElements(init, variables).value;
        var v := StaticWord(last.value.value, variables).value;
        assert (before + [v])[..n] == before && (before + [v])[n] == v;
        assert before == some;
        assert forall i :: 0 <= i < n ==> init[i] == elements[i] && some[i] == values[i];
      }
    }
  }

  lemma {:induction false} ElementsSize(elements: seq<Element>, variables: map<string, string>)
    ensures StaticElements(elements, variables).Some? ==> |StaticElements(elements, variables).value| == |elements|
  {
    hide StaticWord;
    if elements != [] {
      ElementsSize(elements[..|elements| - 1], variables);
    }
  }

  lemma ArrayExactly(a: Assign, variables: map<string, string>, values: seq<string>)
    ensures StaticArray(a, variables) == Some(values) <==> KnownItems(a, variables, values)
  {
    hide StaticElements, StaticWord;
    if a.items.Some? {
      ElementsSize(a.items.value, variables);
      if |a.items.value| == |values| {
        ElementsExactly(a.items.value, variables, values);
      }
    }
  }

  /** Assigning a checksum name reports it with this array exactly when the items are
      known and, for `+=`, the name was reported and does not grow beyond 4096. */
  predicate Reports(f: Facts, a: Assign, reported: seq<string>) {
    if !a.append then KnownItems(a, f.variables, reported)
    else
      && a.name.Some? && a.name.value in f.values && f.values[a.name.value] <= reported && |reported| <= 4096
      && KnownItems(a, f.variables, reported[|f.values[a.name.value]|..])
  }

  lemma AssignReportsExactly(f: Facts, a: Assign, reported: seq<string>)
    requires a.name.Some? && IsChecksumName(a.name.value)
    ensures (a.name.value in AfterAssign(f, a).values && AfterAssign(f, a).values[a.name.value] == reported) <==>
            Reports(f, a, reported)
  {
    hide StaticArray, KnownItems, IsChecksumName;
    var name := a.name.value;
    if a.append && name in f.values {
      var before := f.values[name];
      if before <= reported {
        ArrayExactly(a, f.variables, reported[|before|..]);
        assert reported == before + reported[|before|..];
      }
      if StaticArray(a, f.variables).Some? {
        var more := StaticArray(a, f.variables).value;
        assert (before + more)[|before|..] == more;
      }
    } else {
      ArrayExactly(a, f.variables, reported);
    }
  }

  /** Neither the statement nor any behind it gives up or assigns the name. */
  predicate LeavesAlone(script: seq<Stmt>, name: string) {
    forall s :: s in script ==> s.command.FuncDecl? || (Assigns(s) && name !in NamesOf(Assignments(s)))
  }

  lemma {:induction false} StaysReported(f: Facts, script: seq<Stmt>, name: string)
    requires LeavesAlone(script, name)
    ensures name in AfterScript(f, script).values <==> name in f.values
    ensures name in f.values ==> AfterScript(f, script).values[name] == f.values[name]
  {
    hide AfterAssigns, NamesOf;
    if script != [] {
      var init, last := script[..|script| - 1], script[|script| - 1];
      assert last in script;
      StaysReported(f, init, name);
      AssignsOnly(AfterScript(f, init), last);
      if !last.command.FuncDecl? {
        OtherReports(AfterScript(f, init), Assignments(last), name);
      }
    }
  }

  lemma {:induction false} AfterScripts(f: Facts, a: seq<Stmt>, b: seq<Stmt>)
    ensures AfterScript(f, a + b) == AfterScript(AfterScript(f, a), b)
  {
    hide AfterStmt;
    if b == [] {
      assert a + b == a;
    } else {
      assert (a + b)[..|a + b| - 1] == a + b[..|b| - 1];
      AfterScripts(f, a, b[..|b| - 1]);
    }
  }

  lemma {:induction false} AfterAllAssigns(f: Facts, a: seq<Assign>, b: seq<Assign>)
    ensures AfterAssigns(f, a + b) == AfterAssigns(AfterAssigns(f, a), b)
  {
    hide AfterAssign;
    if b == [] {
      assert a + b == a;
    } else {
      assert (a + b)[..|a + b| - 1] == a + b[..|b| - 1];
      AfterAllAssigns(f, a, b[..|b| - 1]);
    }
  }

  /** A script that assigns a checksum name for the last time in `s`, where `a` is the
      assignment: with nothing behind it but assignments to other names and function
      declarations, the name is reported with an array exactly when the assignment
      reports it. */
  lemma LastAssignmentDecides(before: seq<Stmt>, s: Stmt, first: seq<Assign>, a: Assign, rest: seq<Assign>,
                              behind: seq<Stmt>, reported: seq<string>)
    requires Assignments(s) == first + [a] + rest && a.name.Some? && IsChecksumName(a.name.value)
    requires a.name.value !in NamesOf(rest) && LeavesAlone(behind, a.name.value)
    ensures var f, name := AfterScript(NO_FACTS, before + [s] + behind), a.name.value;
            (name in f.values && f.values[name] == reported) <==>
            Reports(AfterAssigns(AfterScript(NO_FACTS, before), first), a, reported)
  {
    hide AfterAssign, IsChecksumName, NamesOf, LeavesAlone, Reports;
    var f, name := AfterScript(NO_FACTS, before), a.name.value;
    AfterScripts(NO_FACTS, before + [s], behind);
    AfterScripts(NO_FACTS, before, [s]);
    OneStmt(f, s);
    AssignsOfStmt(f, s);
    AfterAllAssigns(f, first + [a], rest);
    AfterAllAssigns(f, first, [a]);
    OneAssign(AfterAssigns(f, first), a);
    AssignReportsExactly(AfterAssigns(f, first), a, reported);
    OtherReports(AfterAssigns(f, first + [a]), rest, name);
    StaysReported(AfterScript(NO_FACTS, before + [s]), behind, name);
  }

  lemma OneStmt(f: Facts, s: Stmt)
    ensures AfterScript(f, [s]) == AfterStmt(f, s)
  {
    hide AfterStmt;
    assert [s][..0] == [];
  }

  lemma OneAssign(f: Facts, a: Assign)
    ensures AfterAssigns(f, [a]) == AfterAssign(f, a)
  {
    hide AfterAssign;
    assert [a][..0] == [];
  }

  lemma AssignsOfStmt(f: Facts, s: Stmt)
    requires Assignments(s) != []
    ensures AfterStmt(f, s) == AfterAssigns(f, Assignments(s))
  {
  }

  // ---------------------------------------------------------------- which variables are known

  /** A plain scalar with a known word is known afterwards, for `+=` only if it was
      and stays within 8192 bytes, and a new one only while there are fewer than 1024. */
  lemma ScalarIsKnownExactly(f: Facts, a: Assign, v: string)
    requires a.name.Some? && !IsChecksumName(a.name.value)
    ensures var name, after := a.name.value, AfterAssign(f, a).variables;
            (name in after && after[name] == v) <==>
            && !a.naked && !a.indexed && a.items.None? && a.value.Some?
            && StaticWord(a.value.value, f.variables).Some?
            && var more := StaticWord(a.value.value, f.variables).value;
            && (if a.append then name in f.variables && v == f.variables[name] + more && |v| <= 8192 else v == more)
            && (name in f.variables || |f.variables| < 1024)
  {
    hide StaticWord, IsChecksumName;
  }
}
