/** The static PKGBUILD analysis of internal/brief/scanner.go: which checksum
    arrays have a value that is known without running the script.

    The Bash parser and printer are not part of this model; a script is given as
    the statements they produce, a word as its printed text. */
module StaticChecksums {
  import opened Text
  import ShellWord

  const MAX_ELEMENTS: nat := 4096
  const MAX_VARIABLES: nat := 1024

  /** A word; `printed` is its minified text, when it has one. */
  datatype Word = Word(printed: Option<string>)

  datatype Element = Element(indexed: bool, value: Option<Word>)

  datatype Assign = Assign(
    name: Option<string>, append: bool, naked: bool, indexed: bool, items: Option<seq<Element>>, value: Option<Word>)

  /** Only calls without arguments and declarations assign; `attributes` says
      that a declaration gives its names an attribute such as readonly. */
  datatype Command =
    | Call(argCount: nat, assigns: seq<Assign>)
    | Decl(args: seq<Assign>, attributes: bool)
    | FuncDecl
    | OtherCommand

  datatype Stmt = Stmt(command: Command, background: bool)

  // ---------------------------------------------------------------- checksum names

  const ALGORITHMS := ["b2", "md5", "sha1", "sha224", "sha256", "sha384", "sha512"]

  predicate IsSuffixOfName(s: string) {
    s == "" || (s[0] == '_' && |s| > 1 && forall i :: 1 <= i < |s| ==> ShellWord.IsNameChar(s[i]))
  }

  predicate IsChecksumName(name: string) {
    exists k :: 0 <= k < |ALGORITHMS| && HasPrefix(name, ALGORITHMS[k] + "sums") &&
                IsSuffixOfName(name[|ALGORITHMS[k]| + 4..])
  }

  // ---------------------------------------------------------------- the specification

  datatype Facts = Facts(
    values: map<string, seq<string>>, unresolved: set<string>, unknownAll: bool, variables: map<string, string>)

  const NO_FACTS := Facts(map[], {}, false, map[])

  function StaticWord(w: Word, variables: map<string, string>): (r: Option<string>)
    ensures r.Some? ==> |r.value| <= ShellWord.MAX_VALUE
  {
    if w.printed.None? || |w.printed.value| > ShellWord.MAX_VALUE then None
    else
      var v := ShellWord.Evaluate(w.printed.value, variables);
      if v.Some? && |v.value| <= ShellWord.MAX_VALUE then v else None
  }

  /** At most 1024 variables are kept. */
  function Keep(variables: map<string, string>, name: string, value: string): map<string, string> {
    if |variables| >= MAX_VARIABLES && name !in variables then variables else variables[name := value]
  }

  predicate IsScalar(a: Assign) {
    !a.naked && !a.indexed && a.items.None? && a.value.Some?
  }

  function AfterScalar(a: Assign, variables: map<string, string>): map<string, string>
    requires a.name.Some?
  {
    var name := a.name.value;
    if !IsScalar(a) then variables - {name} else
      match StaticWord(a.value.value, variables)
      case None => variables - {name}
      case Some(v) =>
        if !a.append then Keep(variables, name, v)
        else if name !in variables || |variables[name]| + |v| > ShellWord.MAX_VALUE then variables - {name}
        else Keep(variables, name, variables[name] + v)
  }

  function StaticElements(elements: seq<Element>, variables: map<string, string>): Option<seq<string>> {
    if elements == [] then Some([])
    else
      var init, last := elements[..|elements| - 1], elements[|elements| - 1];
      match StaticElements(init, variables)
      case None => None
      case Some(values) =>
        if last.indexed || last.value.None? then None else
          match StaticWord(last.value.value, variables)
          case None => None
          case Some(v) => Some(values + [v])
  }

  predicate IsArray(a: Assign) {
    !a.indexed && a.value.None? && a.items.Some?
  }

  function StaticArray(a: Assign, variables: map<string, string>): Option<seq<string>> {
    if !IsArray(a) || |a.items.value| > MAX_ELEMENTS then None else StaticElements(a.items.value, variables)
  }

  function Unresolve(f: Facts, name: string): Facts {
    f.(values := f.values - {name}, unresolved := f.unresolved + {name})
  }

  function Resolve(f: Facts, name: string, value: seq<string>): Facts {
    f.(values := f.values[name := value], unresolved := f.unresolved - {name})
  }

  function AfterChecksum(f: Facts, a: Assign): Facts
    requires a.name.Some?
  {
    var name := a.name.value;
    match StaticArray(a, f.variables)
    case None => Unresolve(f, name)
    case Some(value) =>
      if !a.append then Resolve(f, name, value)
      else if name !in f.values || |f.values[name]| + |value| > MAX_ELEMENTS then Unresolve(f, name)
      else Resolve(f, name, f.values[name] + value)
  }

  function AfterAssign(f: Facts, a: Assign): Facts {
    if a.name.None? then f
    else if IsChecksumName(a.name.value) then AfterChecksum(f, a)
    else f.(variables := AfterScalar(a, f.variables))
  }

  function AfterAssigns(f: Facts, assigns: seq<Assign>): Facts {
    if assigns == [] then f
    else AfterAssign(AfterAssigns(f, assigns[..|assigns| - 1]), assigns[|assigns| - 1])
  }

  /** The assignments of a statement that does nothing but assign. */
  function Assignments(s: Stmt): seq<Assign> {
    match s.command
    case Call(argCount, assigns) => if argCount == 0 then assigns else []
    case Decl(args, _) => args
    case _ => []
  }

  function AfterStmt(f: Facts, s: Stmt): Facts {
    if Assignments(s) != [] then AfterAssigns(f, Assignments(s))
    else if s.command.FuncDecl? then f
    else f.(values := map[], variables := map[], unknownAll := true)
  }

  function AfterScript(f: Facts, script: seq<Stmt>): Facts {
    if script == [] then f else AfterStmt(AfterScript(f, script[..|script| - 1]), script[|script| - 1])
  }

  /** The value of the name is not known to the analysis. */
  predicate Unresolved(f: Facts, name: string) {
    name !in f.values && (f.unknownAll || name in f.unresolved)
  }

  // ---------------------------------------------------------------- the analysis

  class Analysis {
    var values: map<string, seq<string>>
    var unresolved: set<string>
    var unknownAll: bool
    var variables: map<string, string>

    function Now(): Facts
      reads this
    {
      Facts(values, unresolved, unknownAll, variables)
    }

    constructor ()
      ensures Now() == NO_FACTS
    {
      values, unresolved, unknownAll, variables := map[], {}, false, map[];
    }

    /** A script that does not parse is given as None. */
    method Analyze(script: Option<seq<Stmt>>)
      requires Now() == NO_FACTS
      modifies this
      ensures Now() == if script.None? then NO_FACTS.(unknownAll := true) else AfterScript(NO_FACTS, script.value)
    {
      if script.None? {
        unknownAll := true;
        return;
      }
      var stmts := script.value;
      for i := 0 to |stmts|
        invariant Now() == AfterScript(NO_FACTS, stmts[..i])
      {
        assert stmts[..i + 1][..i] == stmts[..i];
        var assigns := Assignments(stmts[i]);
        if assigns == [] {
          if !stmts[i].command.FuncDecl? {
            values, variables := map[], map[];
            unknownAll := true;
          }
        } else {
          ReadAssigns(assigns);
        }
      }
      assert stmts[..|stmts|] == stmts;
    }

    method ReadAssigns(assigns: seq<Assign>)
      modifies this
      ensures Now() == AfterAssigns(old(Now()), assigns)
    {
      hide IsChecksumName, StaticArray;
      for i := 0 to |assigns|
        invariant Now() == AfterAssigns(old(Now()), assigns[..i])
      {
        assert assigns[..i + 1][..i] == assigns[..i];
        var a := assigns[i];
        if a.name.None? {
          continue;
        }
        var name := a.name.value;
        if !IsChecksumName(name) {
          ApplyScalar(a);
          continue;
        }
        var resolved := EvaluateArray(a, variables);
        if resolved.None? {
          values := values - {name};
          unresolved := unresolved + {name};
          continue;
        }
        var value := resolved.value;
        if a.append {
          if name !in values || |values[name]| + |value| > MAX_ELEMENTS {
            values := values - {name};
            unresolved := unresolved + {name};
            continue;
          }
          value := values[name] + value;
        }
        values := values[name := value];
        unresolved := unresolved - {name};
      }
      assert assigns[..|assigns|] == assigns;
    }

    method ApplyScalar(a: Assign)
      requires a.name.Some?
      modifies this
      ensures Now() == old(Now()).(variables := AfterScalar(a, old(variables)))
    {
      var name := a.name.value;
      if a.naked || a.indexed || a.items.Some? || a.value.None? {
        variables := variables - {name};
        return;
      }
      var word := EvaluateWord(a.value.value, variables);
      if word.None? {
        variables := variables - {name};
        return;
      }
      var value := word.value;
      if a.append {
        if name !in variables || |variables[name]| + |value| > ShellWord.MAX_VALUE {
          variables := variables - {name};
          return;
        }
        value := variables[name] + value;
      }
      if |variables| >= MAX_VARIABLES {
        if name !in variables {
          return;
        }
      }
      variables := variables[name := value];
    }
  }

  method EvaluateWord(w: Word, variables: map<string, string>) returns (r: Option<string>)
    ensures r == StaticWord(w, variables)
  {
    if w.printed.None? || |w.printed.value| > ShellWord.MAX_VALUE {
      return None;
    }
    var value, ok := ShellWord.EvaluateStaticShellScalar(w.printed.value, variables);
    if !ok || |value| > ShellWord.MAX_VALUE {
      return None;
    }
    return Some(value);
  }

  method EvaluateArray(a: Assign, variables: map<string, string>) returns (r: Option<seq<string>>)
    ensures r == StaticArray(a, variables)
  {
    if a.indexed || a.value.Some? || a.items.None? || |a.items.value| > MAX_ELEMENTS {
      return None;
    }
    var elements := a.items.value;
    var result: seq<string> := [];
    for i := 0 to |elements|
      invariant StaticElements(elements[..i], variables) == Some(result)
    {
      assert elements[..i + 1][..i] == elements[..i];
      var element := elements[i];
      var word := None;
      if !element.indexed && element.value.Some? {
        word := EvaluateWord(element.value.value, variables);
      }
      if word.None? {
        NoStaticElements(elements, i + 1, variables);
        return None;
      }
      result := result + [word.value];
    }
    assert elements[..|elements|] == elements;
    return Some(result);
  }

  /** One element without a value spoils the whole array. */
  lemma {:induction false} NoStaticElements(elements: seq<Element>, n: nat, variables: map<string, string>)
    requires n <= |elements| && StaticElements(elements[..n], variables).None?
    ensures StaticElements(elements, variables).None?
    decreases |elements|
  {
    if n == |elements| {
      assert elements[..n] == elements;
    } else {
      assert elements[..|elements| - 1][..n] == elements[..n];
      NoStaticElements(elements[..|elements| - 1], n, variables);
    }
  }
}
