/** Where the word evaluator of ShellWord reads a word as sections 2.2 and 2.3 of
    the POSIX.1-2017 Shell Command Language do. */
module ShellReading {
  import opened Text
  import opened ShellWord

  // ---------------------------------------------------------------- names

  predicate WordCharacter(c: char) {
    'A' <= c <= 'Z' || 'a' <= c <= 'z' || '0' <= c <= '9' || c == '_'
  }

  /** Section 3.235 of POSIX.1-2017: letters, digits and underscores, no digit first. */
  predicate IsName(s: string) {
    s != "" && !('0' <= s[0] <= '9') && forall i :: 0 <= i < |s| ==> WordCharacter(s[i])
  }

  /** `${name}`, or `$name` with the longest name there is. */
  predicate Refers(s: string, name: string, rest: string) {
    && IsName(name)
    && (s == "${" + name + "}" + rest || (s == "$" + name + rest && (rest != "" ==> !WordCharacter(rest[0]))))
  }

  lemma BracedIsRead(s: string, name: string, rest: string)
    requires IsName(name) && s == "${" + name + "}" + rest
    ensures VariableReference(s) == Some(Reference(name, |name| + 3))
  {
    hide Span;
    var tail := s[2..];
    assert tail == name + "}" + rest;
    assert forall i :: 0 <= i < |name| ==> tail[i] == name[i] != '}';
    SpanIs(tail, c => c != '}', |name|);
    assert tail[..|name|] == name;
  }

  lemma BareIsRead(s: string, name: string, rest: string)
    requires IsName(name) && s == "$" + name + rest && (rest != "" ==> !WordCharacter(rest[0]))
    ensures VariableReference(s) == Some(Reference(name, |name| + 1))
  {
    hide Span;
    var tail := s[2..];
    assert s[1] == name[0] && tail == name[1..] + rest;
    assert forall i :: 0 <= i < |name| - 1 ==> tail[i] == name[i + 1];
    SpanIs(tail, c => IsNameChar(c), |name| - 1);
    assert s[1..][..|name|] == name;
  }

  lemma NamesAreIdentifiers(name: string)
    ensures IsIdentifier(name) <==> IsName(name)
  {
  }

  /** A text of one part, one character and the rest. */
  lemma Parts(s: string, n: nat)
    requires n < |s|
    ensures s == s[..n] + [s[n]] + s[n + 1..]
  {
  }

  lemma BracedWasRead(s: string)
    requires |s| > 1 && s[0] == '$' && s[1] == '{' && VariableReference(s).Some?
    ensures var r := VariableReference(s).value; Refers(s, r.name, s[r.consumed..])
  {
    hide Span, IsIdentifier, IsName;
    var tail := s[2..];
    var end := Span(tail, c => c != '}');
    var name, rest := tail[..end], tail[end + 1..];
    NamesAreIdentifiers(name);
    Parts(tail, end);
    assert rest == s[end + 3..] && s == "${" + tail;
    assert "${" + (name + ['}'] + rest) == "${" + name + "}" + rest;
  }

  /** A letter and the name characters behind it are the longest name there is. */
  lemma LongestName(tail: string, n: nat)
    requires tail != "" && IsLetter(tail[0]) && n == 1 + Span(tail[1..], c => IsNameChar(c))
    ensures n <= |tail| && IsName(tail[..n]) && (n < |tail| ==> !WordCharacter(tail[n]))
  {
    hide Span;
    var behind := tail[1..];
    forall i | 0 <= i < n ensures WordCharacter(tail[i]) {
      if i > 0 {
        assert behind[i - 1] == tail[i];
      }
    }
    assert n < |tail| ==> behind[n - 1] == tail[n];
  }

  lemma BareWasRead(s: string)
    requires |s| > 1 && s[0] == '$' && s[1] != '{' && VariableReference(s).Some?
    ensures var r := VariableReference(s).value; Refers(s, r.name, s[r.consumed..])
  {
    hide Span, IsName, WordCharacter, IsIdentifier;
    var tail := s[1..];
    assert tail[1..] == s[2..];
    var n := 1 + Span(tail[1..], c => IsNameChar(c));
    LongestName(tail, n);
    BareParts(s, n);
  }

  lemma BareParts(s: string, n: nat)
    requires n < |s| && s[0] == '$'
    ensures s == "$" + s[1..][..n] + s[n + 1..] && (n + 1 < |s| ==> s[n + 1] == s[1..][n])
  {
  }

  /** The evaluator finds exactly the references to names. */
  lemma ReferencesExactly(s: string, name: string, consumed: nat)
    requires s != "" && s[0] == '$' && consumed <= |s|
    ensures VariableReference(s) == Some(Reference(name, consumed)) <==> Refers(s, name, s[consumed..]) && consumed > 1
  {
    hide VariableReference, IsName;
    var rest := s[consumed..];
    if VariableReference(s) == Some(Reference(name, consumed)) {
      if s[1] == '{' {
        BracedWasRead(s);
      } else {
        BareWasRead(s);
      }
    }
    if Refers(s, name, rest) {
      if s == "${" + name + "}" + rest {
        BracedIsRead(s, name, rest);
      } else {
        BareIsRead(s, name, rest);
      }
    }
  }

  // ---------------------------------------------------------------- the shell's reading

  /** Quote removal and parameter expansion of the word at the front of `rest`.  An
      unquoted newline ends it, and so does a comment; behind a blank nothing else
      may follow on the line.  `start` says that nothing of the word has been read. */
  function Unquote(rest: string, start: bool, quote: Quote, output: string,
                   variables: map<string, string>): (r: Option<string>)
    ensures r.Some? ==> output <= r.value
    decreases |rest|
  {
    if rest == "" then
      if quote.Bare? then Some(output) else None
    else
      var c, tail := rest[0], rest[1..];
      if c == '\'' then
        match quote
        case Bare => Unquote(tail, false, Single, output, variables)
        case Single => Unquote(tail, false, Bare, output, variables)
        case Double => Unquote(tail, false, Double, output + [c], variables)
      else if quote.Single? then Unquote(tail, false, Single, output + [c], variables)
      else if c == '"' then Unquote(tail, false, if quote.Double? then Bare else Double, output, variables)
      else if c == '`' then None
      else if c == '\\' then
        if tail == "" then None
        else if tail[0] == '\n' then Unquote(tail[1..], start, quote, output, variables)
        else if quote.Double? && !IsSpecial(tail[0]) then Unquote(tail, false, quote, output + [c], variables)
        else Unquote(tail[1..], false, quote, output + [tail[0]], variables)
      else if c == '$' then
        match VariableReference(rest)
        case None => None
        case Some(ref) =>
          if ref.name !in variables then None
          else Unquote(rest[ref.consumed..], false, quote, output + variables[ref.name], variables)
      else if quote.Bare? && ((c == '#' && start) || c == '\n') then Some(output)
      else if quote.Bare? && IsBlank(c) then
        if LineEnds(rest) then Some(output) else None
      else if quote.Bare? && IsOperator(c) then None
      else Unquote(tail, false, quote, output + [c], variables)
  }

  /** Behind the blanks comes the end, a comment or the next line. */
  predicate LineEnds(rest: string) {
    var n := SkipBlanks(rest);
    n == |rest| || rest[n] == '#' || rest[n] == '\n'
  }

  function ShellValue(input: string, variables: map<string, string>): Option<string> {
    Unquote(input, true, Bare, "", variables)
  }

  /** Before the word ends there is none of the four spots where the evaluator
      departs from the shell: an apostrophe inside double quotes, a continued line,
      a `#` right behind an escaped blank, and the end of the line. */
  predicate ReadsAlike(rest: string, fresh': bool, start: bool, quote: Quote)
    decreases |rest|
  {
    rest == "" ||
    var c, tail := rest[0], rest[1..];
    if quote.Single? then ReadsAlike(tail, c != '\'' && IsBlank(c), false, if c == '\'' then Bare else Single)
    else if c == '\'' then quote.Bare? && ReadsAlike(tail, false, false, Single)
    else if c == '"' then ReadsAlike(tail, false, false, if quote.Double? then Bare else Double)
    else if c == '`' then true
    else if c == '\\' then
      tail == "" || (tail[0] != '\n' &&
        if quote.Double? && !IsSpecial(tail[0]) then ReadsAlike(tail, false, false, quote)
        else ReadsAlike(tail[1..], IsBlank(tail[0]), false, quote))
    else if c == '$' then
      match VariableReference(rest)
      case None => true
      case Some(ref) => ReadsAlike(rest[ref.consumed..], false, false, quote)
    else if quote.Bare? && c == '#' && fresh' then start
    else if quote.Bare? && c == '\n' then false
    else if quote.Bare? && IsBlank(c) then
      var n := SkipBlanks(rest);
      n == |rest| || rest[n] != '\n'
    else if quote.Bare? && IsOperator(c) then true
    else ReadsAlike(tail, IsBlank(c), false, quote)
  }

  lemma {:induction false} RunsLikeTheShell(rest: string, fresh': bool, start: bool, quote: Quote, output: string,
                                            variables: map<string, string>, v: string)
    requires ReadsAlike(rest, fresh', start, quote) && (start ==> fresh') && |v| <= MAX_VALUE
    ensures Run(rest, fresh', quote, output, variables) == Some(v) <==>
              Unquote(rest, start, quote, output, variables) == Some(v)
    decreases |rest|
  {
    hide SkipBlanks, IsOperator, VariableReference;
    if rest != "" {
      var c, tail := rest[0], rest[1..];
      if quote.Single? {
        if c == '\'' {
          RunsLikeTheShell(tail, false, false, Bare, output, variables, v);
        } else {
          RunsLikeTheShell(tail, IsBlank(c), false, Single, output + [c], variables, v);
        }
      } else if c == '\'' {
        RunsLikeTheShell(tail, false, false, Single, output, variables, v);
      } else if c == '"' {
        RunsLikeTheShell(tail, false, false, if quote.Double? then Bare else Double, output, variables, v);
      } else if c == '`' {
      } else if c == '\\' {
        if tail != "" {
          if quote.Double? && !IsSpecial(tail[0]) {
            RunsLikeTheShell(tail, false, false, quote, output + [c], variables, v);
          } else {
            RunsLikeTheShell(tail[1..], IsBlank(tail[0]), false, quote, output + [tail[0]], variables, v);
          }
        }
      } else if c == '$' {
        var ref := VariableReference(rest);
        if ref.Some? && ref.value.name in variables {
          RunsLikeTheShell(rest[ref.value.consumed..], false, false, quote, output + variables[ref.value.name],
            variables, v);
        }
      } else if quote.Bare? && ((c == '#' && fresh') || IsBlank(c) || IsOperator(c)) {
      } else {
        RunsLikeTheShell(tail, IsBlank(c), false, quote, output + [c], variables, v);
      }
    }
  }

  /** Without the four spots the evaluator finds a value of at most 8192 bytes
      exactly when the shell does, and then it is the same value. */
  lemma AgreesWithTheShell(input: string, variables: map<string, string>, v: string)
    requires ReadsAlike(input, true, true, Bare) && |v| <= MAX_VALUE
    ensures Evaluate(input, variables) == Some(v) <==> ShellValue(input, variables) == Some(v)
  {
    RunsLikeTheShell(input, true, true, Bare, "", variables, v);
  }

  // ---------------------------------------------------------------- the other three spots always matter

  /** No apostrophe stands inside double quotes before the evaluator, or the shell,
      has come to the end of the word. */
  predicate NoInnerApostrophe(rest: string, fresh': bool, quote: Quote)
    decreases |rest|
  {
    rest == "" ||
    var c, tail := rest[0], rest[1..];
    if quote.Single? then NoInnerApostrophe(tail, c != '\'' && IsBlank(c), if c == '\'' then Bare else Single)
    else if c == '\'' then quote.Bare? && NoInnerApostrophe(tail, false, Single)
    else if c == '"' then NoInnerApostrophe(tail, false, if quote.Double? then Bare else Double)
    else if c == '`' then true
    else if c == '\\' then
      tail == "" ||
      if quote.Double? && !IsSpecial(tail[0]) then NoInnerApostrophe(tail, false, quote)
      else NoInnerApostrophe(tail[1..], IsBlank(tail[0]), quote)
    else if c == '$' then
      match VariableReference(rest)
      case None => true
      case Some(ref) => NoInnerApostrophe(rest[ref.consumed..], false, quote)
    else if quote.Bare? && ((c == '#' && fresh') || c == '\n' || IsBlank(c) || IsOperator(c)) then true
    else NoInnerApostrophe(tail, IsBlank(c), quote)
  }

  /** Two outputs that can no longer become one: they differ somewhere, or `a` is
      ahead of `b` by newlines and backslashes. */
  predicate Apart(a: string, b: string) {
    Differ(a, b) || Ahead(a, b)
  }

  predicate Differ(a: string, b: string) {
    exists i :: 0 <= i < |a| && i < |b| && a[i] != b[i]
  }

  predicate Ahead(a: string, b: string) {
    b < a && forall i :: |b| <= i < |a| ==> a[i] == '\n' || a[i] == '\\'
  }

  lemma StayApart(a: string, b: string, c: char)
    requires Apart(a, b)
    ensures Apart(a + [c], b + [c])
  {
    if Differ(a, b) {
      var i :| 0 <= i < |a| && i < |b| && a[i] != b[i];
      assert (a + [c])[i] != (b + [c])[i];
    } else if a[|b|] == c {
      assert b + [c] == a[..|b| + 1];
      if |a| == |b| + 1 {
        assert a + [c] == (b + [c]) + [c];
      }
    } else {
      assert (a + [c])[|b|] != (b + [c])[|b|];
    }
  }

  lemma {:induction false} StayApartBehind(a: string, b: string, w: string)
    requires Apart(a, b)
    ensures Apart(a + w, b + w)
    decreases |w|
  {
    if w == "" {
      assert a + w == a && b + w == b;
    } else {
      StayApart(a, b, w[0]);
      StayApartBehind(a + [w[0]], b + [w[0]], w[1..]);
      assert a + [w[0]] + w[1..] == a + w && b + [w[0]] + w[1..] == b + w;
    }
  }

  lemma MoveAhead(a: string, b: string, c: char)
    requires (a == b || Apart(a, b)) && (c == '\n' || c == '\\')
    ensures Apart(a + [c], b)
  {
    if Differ(a, b) {
      var i :| 0 <= i < |a| && i < |b| && a[i] != b[i];
      assert (a + [c])[i] != b[i];
    }
  }

  lemma ApartIsUnequal(a: string, b: string, v: string)
    requires Apart(a, b) && a <= v
    ensures v != b
  {
  }

  /** What is left of `b` begins with a `#`, and `a` is final. */
  lemma CommentStaysBehind(a: string, b: string, v: string)
    requires (a == b || Apart(a, b)) && b + ['#'] <= v
    ensures v != a
  {
    if Ahead(a, b) {
      assert v[|b|] == '#';
    }
  }

  lemma {:induction false} RunExtends(rest: string, fresh': bool, quote: Quote, output: string,
                                      variables: map<string, string>)
    ensures var r := Run(rest, fresh', quote, output, variables); r.Some? ==> output <= r.value
    decreases |rest|
  {
    hide SkipBlanks, IsOperator, IsSpecial, VariableReference;
    if rest != "" {
      var c, tail := rest[0], rest[1..];
      if quote.Single? {
        if c == '\'' {
          RunExtends(tail, false, Bare, output, variables);
        } else {
          RunExtends(tail, IsBlank(c), Single, output + [c], variables);
        }
      } else if c == '\'' {
        RunExtends(tail, false, Single, output, variables);
      } else if c == '"' {
        RunExtends(tail, false, if quote.Double? then Bare else Double, output, variables);
      } else if c == '\\' {
        if tail != "" {
          if quote.Double? && !IsSpecial(tail[0]) {
            RunExtends(tail, false, quote, output + [c], variables);
          } else {
            RunExtends(tail[1..], IsBlank(tail[0]), quote, output + [tail[0]], variables);
          }
        }
      } else if c == '$' {
        var ref := VariableReference(rest);
        if ref.Some? && ref.value.name in variables {
          RunExtends(rest[ref.value.consumed..], false, quote, output + variables[ref.value.name], variables);
        }
      } else if c != '`' && !(quote.Bare? && ((c == '#' && fresh') || IsBlank(c) || IsOperator(c))) {
        RunExtends(tail, IsBlank(c), quote, output + [c], variables);
      }
    }
  }

  /** Once apart, the evaluator and the shell never find the same value. */
  lemma {:induction false} NeverMeet(rest: string, fresh': bool, start: bool, quote: Quote, a: string, b: string,
                                     variables: map<string, string>, v: string)
    requires NoInnerApostrophe(rest, fresh', quote) && Apart(a, b)
    ensures !(Run(rest, fresh', quote, a, variables) == Some(v) && Unquote(rest, start, quote, b, variables) == Some(v))
    decreases |rest|
  {
    hide SkipBlanks, IsOperator, IsSpecial, VariableReference, Apart;
    RunExtends(rest, fresh', quote, a, variables);
    if Run(rest, fresh', quote, a, variables) == Some(v) {
      ApartIsUnequal(a, b, v);
    }
    ApartIsUnequal(a, b, a);
    if rest != "" {
      var c, tail := rest[0], rest[1..];
      StayApart(a, b, c);
      if quote.Single? {
        if c == '\'' {
          NeverMeet(tail, false, false, Bare, a, b, variables, v);
        } else {
          NeverMeet(tail, IsBlank(c), false, Single, a + [c], b + [c], variables, v);
        }
      } else if c == '\'' {
        NeverMeet(tail, false, false, Single, a, b, variables, v);
      } else if c == '"' {
        NeverMeet(tail, false, false, if quote.Double? then Bare else Double, a, b, variables, v);
      } else if c == '\\' {
        if tail != "" {
          NeverMeetEscaped(rest, fresh', start, quote, a, b, variables, v);
        }
      } else if c == '$' {
        var ref := VariableReference(rest);
        if ref.Some? && ref.value.name in variables {
          var w := variables[ref.value.name];
          StayApartBehind(a, b, w);
          NeverMeet(rest[ref.value.consumed..], false, false, quote, a + w, b + w, variables, v);
        }
      } else if quote.Bare? && c == '#' && fresh' {
        if !start && Unquote(rest, start, quote, b, variables) == Some(v) {
          CommentStaysBehind(a, b, v);
        }
      } else if c != '`' && !(quote.Bare? && ((c == '#' && start) || c == '\n' || IsBlank(c) || IsOperator(c))) {
        NeverMeet(tail, IsBlank(c), false, quote, a + [c], b + [c], variables, v);
      }
    }
  }

  lemma {:induction false} NeverMeetEscaped(rest: string, fresh': bool, start: bool, quote: Quote, a: string, b: string,
                                            variables: map<string, string>, v: string)
    requires |rest| > 1 && rest[0] == '\\' && !quote.Single? && NoInnerApostrophe(rest, fresh', quote) && Apart(a, b)
    ensures !(Run(rest, fresh', quote, a, variables) == Some(v) && Unquote(rest, start, quote, b, variables) == Some(v))
    decreases |rest|, 0
  {
    hide SkipBlanks, IsOperator, VariableReference, Apart;
    var tail := rest[1..];
    var n := tail[0];
    if n == '\n' {
      MoveAhead(a, b, '\n');
      MoveAhead(a, b, '\\');
      MoveAhead(a + ['\\'], b, '\n');
      if quote.Double? {
        assert NoInnerApostrophe(tail, false, Double) && NoInnerApostrophe(tail[1..], false, Double);
        NeverMeet(tail[1..], false, start, Double, a + ['\\'] + ['\n'], b, variables, v);
      } else {
        NeverMeet(tail[1..], false, start, Bare, a + ['\n'], b, variables, v);
      }
    } else if quote.Double? && !IsSpecial(n) {
      StayApart(a, b, '\\');
      NeverMeet(tail, false, false, quote, a + ['\\'], b + ['\\'], variables, v);
    } else {
      StayApart(a, b, n);
      NeverMeet(tail[1..], IsBlank(n), false, quote, a + [n], b + [n], variables, v);
    }
  }

  /** While both read alike they have the same output; at the first other spot they
      part. */
  lemma {:induction false} SpotsPart(rest: string, fresh': bool, start: bool, quote: Quote, output: string,
                                     variables: map<string, string>, v: string)
    requires NoInnerApostrophe(rest, fresh', quote) && (start ==> fresh') && !ReadsAlike(rest, fresh', start, quote)
    requires Run(rest, fresh', quote, output, variables) == Some(v)
    ensures Unquote(rest, start, quote, output, variables) != Some(v)
    decreases |rest|
  {
    hide SkipBlanks, IsOperator, VariableReference, Apart;
    RunExtends(rest, fresh', quote, output, variables);
    var c, tail := rest[0], rest[1..];
    if quote.Single? {
      var more := if c == '\'' then output else output + [c];
      SpotsPart(tail, c != '\'' && IsBlank(c), false, if c == '\'' then Bare else Single, more, variables, v);
    } else if c == '\'' {
      SpotsPart(tail, false, false, Single, output, variables, v);
    } else if c == '"' {
      SpotsPart(tail, false, false, if quote.Double? then Bare else Double, output, variables, v);
    } else if c == '\\' {
      if tail[0] == '\n' {
        MoveAhead(output, output, '\n');
        MoveAhead(output, output, '\\');
        MoveAhead(output + ['\\'], output, '\n');
        if quote.Double? {
          assert NoInnerApostrophe(tail, false, Double) && NoInnerApostrophe(tail[1..], false, Double);
          NeverMeet(tail[1..], false, start, Double, output + ['\\'] + ['\n'], output, variables, v);
        } else {
          NeverMeet(tail[1..], false, start, Bare, output + ['\n'], output, variables, v);
        }
      } else if quote.Double? && !IsSpecial(tail[0]) {
        SpotsPart(tail, false, false, quote, output + [c], variables, v);
      } else {
        SpotsPart(tail[1..], IsBlank(tail[0]), false, quote, output + [tail[0]], variables, v);
      }
    } else if c == '$' {
      var ref := VariableReference(rest).value;
      SpotsPart(rest[ref.consumed..], false, false, quote, output + variables[ref.name], variables, v);
    } else if quote.Bare? && c == '#' && fresh' {
    } else if quote.Bare? && c == '\n' {
      RunExtends(tail, false, quote, output + [c], variables);
    } else if quote.Bare? && IsBlank(c) {
    } else {
      SpotsPart(tail, IsBlank(c), false, quote, output + [c], variables, v);
    }
  }

  /** In a word without apostrophes inside double quotes, a value that the evaluator
      finds is the shell's value if and only if the word has none of the other
      three spots. */
  lemma ValueIsTheShellsExactly(input: string, variables: map<string, string>)
    requires NoInnerApostrophe(input, true, Bare)
    requires Evaluate(input, variables).Some? && |Evaluate(input, variables).value| <= MAX_VALUE
    ensures ShellValue(input, variables) == Evaluate(input, variables) <==> ReadsAlike(input, true, true, Bare)
  {
    hide Run, Unquote, NoInnerApostrophe, ReadsAlike;
    var v := Evaluate(input, variables).value;
    if ReadsAlike(input, true, true, Bare) {
      AgreesWithTheShell(input, variables, v);
    } else {
      SpotsPart(input, true, true, Bare, "", variables, v);
    }
  }

  // ---------------------------------------------------------------- one word for each spot

  /** At an apostrophe in double quotes the evaluator may find another value. */
  lemma MisreadsApostrophe()
    ensures Evaluate("\"'' #\"", map[]) == Some("")
    ensures ShellValue("\"'' #\"", map[]) == Some("'' #")
  {
    var input := "\"'' #\"";
    var r1, r2, r3, r4, r5, r6 := input[1..], input[2..], input[3..], input[4..], input[5..], input[6..];
    assert r1[1..] == r2 && r2[1..] == r3 && r3[1..] == r4 && r4[1..] == r5 && r5[1..] == r6 == "";
    assert SkipBlanks(r3) == 1 by { assert !IsBlank(r4[0]) && SkipBlanks(r4) == 0; SkipOne(r3); }
    assert Run(r3, false, Bare, "", map[]) == Some("");
    assert Run(r2, false, Single, "", map[]) == Run(r3, false, Bare, "", map[]);
    assert Run(r1, false, Double, "", map[]) == Run(r2, false, Single, "", map[]);
    var o1 := "" + ['\''];
    var o2 := o1 + ['\''];
    var o3 := o2 + [' '];
    var o4 := o3 + ['#'];
    assert Unquote(r5, false, Double, o4, map[]) == Unquote(r6, false, Bare, o4, map[]) == Some(o4);
    assert Unquote(r3, false, Double, o2, map[]) == Unquote(r4, false, Double, o3, map[]);
    assert Unquote(r4, false, Double, o3, map[]) == Unquote(r5, false, Double, o4, map[]);
    assert Unquote(r1, false, Double, "", map[]) == Unquote(r2, false, Double, o1, map[]);
    assert Unquote(r2, false, Double, o1, map[]) == Unquote(r3, false, Double, o2, map[]);
    assert o4 == "'' #";
  }

  lemma SkipOne(s: string)
    requires s != "" && IsBlank(s[0])
    ensures SkipBlanks(s) == 1 + SkipBlanks(s[1..])
  {
  }

  /** Behind an escaped blank the evaluator takes `#` for a comment. */
  lemma MisreadsHash()
    ensures Evaluate("\\ #", map[]) == Some(" ")
    ensures ShellValue("\\ #", map[]) == Some(" #")
  {
    var input := "\\ #";
    var r1, r2, r3 := input[1..], input[2..], input[3..];
    assert r1[1..] == r2 && r2[1..] == r3 == "";
    var o1 := "" + [' '];
    var o2 := o1 + ['#'];
    assert Run(input, true, Bare, "", map[]) == Run(r2, true, Bare, o1, map[]) == Some(o1);
    assert Unquote(r2, false, Bare, o1, map[]) == Unquote(r3, false, Bare, o2, map[]) == Some(o2);
    assert Unquote(input, true, Bare, "", map[]) == Unquote(r2, false, Bare, o1, map[]);
    assert o1 == " " && o2 == " #";
  }

  /** A continued line becomes a newline in the value. */
  lemma MisreadsContinuedLine()
    ensures Evaluate("\\\n", map[]) == Some("\n")
    ensures ShellValue("\\\n", map[]) == Some("")
  {
    var input := "\\\n";
    var r1, r2 := input[1..], input[2..];
    assert r1[1..] == r2 == "" && "" + ['\n'] == "\n";
    assert Run(input, true, Bare, "", map[]) == Run(r2, false, Bare, "\n", map[]);
    assert Unquote(input, true, Bare, "", map[]) == Unquote(r2, true, Bare, "", map[]);
  }

  /** One character that means nothing special is read, or the line ends. */
  lemma PlainCharacter(rest: string, f: bool, start: bool, output: string)
    requires rest != "" && (rest[0] == '\n' || IsLetter(rest[0])) && |output| < MAX_VALUE
    ensures Run(rest, f, Bare, output, map[]) == Run(rest[1..], false, Bare, output + [rest[0]], map[])
    ensures Unquote(rest, start, Bare, output, map[]) ==
            if rest[0] == '\n' then Some(output) else Unquote(rest[1..], false, Bare, output + [rest[0]], map[])
  {
    hide VariableReference, SkipBlanks, LineEnds;
  }

  lemma EndOfWord(output: string)
    ensures Run("", false, Bare, output, map[]) == Some(output)
  {
  }

  /** The evaluator reads on behind the end of the line. */
  lemma MisreadsNewline()
    ensures Evaluate("a\nb", map[]) == Some("a\nb")
    ensures ShellValue("a\nb", map[]) == Some("a")
  {
    hide Run, Unquote;
    var input := "a\nb";
    var r1, r2 := input[1..], input[2..];
    assert r1[1..] == r2 && r2[1..] == "";
    assert "" + ['a'] == "a" && "a" + ['\n'] == "a\n" && "a\n" + ['b'] == "a\nb";
    PlainCharacter(input, true, true, "");
    PlainCharacter(r1, false, false, "a");
    PlainCharacter(r2, false, false, "a\n");
    EndOfWord("a\nb");
  }

  // ---------------------------------------------------------------- apostrophes may cancel out

  const CAUGHT_UP := map["r" := "'", "v" := "'''$v\\'"]
  const ODD := "\"''\\'\"$r\\''$v\\'\"''\"''"

  lemma ReferenceIs(rest: string, c: char)
    requires |rest| > 2 && rest[0] == '$' && rest[1] == c && IsLetter(c) && !IsNameChar(rest[2])
    ensures VariableReference(rest) == Some(Reference([c], 2))
  {
    var tail := rest[2..];
    assert !IsNameChar(tail[0]) && Span(tail, c => IsNameChar(c)) == 0;
    assert rest[1..][..1] == [c];
  }

  lemma RunQuote(rest: string, f: bool, quote: Quote, output: string, variables: map<string, string>)
    requires rest != ""
    ensures rest[0] == '\'' ==>
              Run(rest, f, quote, output, variables) ==
              Run(rest[1..], false, if quote.Single? then Bare else Single, output, variables)
    ensures rest[0] == '"' && !quote.Single? ==>
              Run(rest, f, quote, output, variables) ==
              Run(rest[1..], false, if quote.Double? then Bare else Double, output, variables)
  {
    hide VariableReference, SkipBlanks, IsOperator;
  }

  lemma RunEscape(rest: string, f: bool, output: string, variables: map<string, string>)
    requires |rest| > 1 && rest[0] == '\\' && rest[1] == '\''
    ensures Run(rest, f, Bare, output, variables) == Run(rest[2..], false, Bare, output + "'", variables)
  {
    hide VariableReference, SkipBlanks, IsOperator;
  }

  lemma RunVariable(rest: string, c: char, f: bool, quote: Quote, output: string, variables: map<string, string>)
    requires |rest| > 2 && rest[0] == '$' && rest[1] == c && IsLetter(c) && !IsNameChar(rest[2])
    requires !quote.Single? && [c] in variables && |output + variables[[c]]| <= MAX_VALUE
    ensures Run(rest, f, quote, output, variables) ==
            Run(rest[2..], false, quote, output + variables[[c]], variables)
  {
    hide SkipBlanks, IsOperator, VariableReference;
    ReferenceIs(rest, c);
  }

  lemma FirstOf(c: char, rest: string)
    ensures ([c] + rest)[0] == c && ([c] + rest)[1..] == rest
  {
  }

  lemma EvaluatorQuotedPart(rest: string)
    ensures Run("\"''\\'\"" + rest, true, Bare, "", CAUGHT_UP) == Run(rest, false, Double, "'", CAUGHT_UP)
  {
    hide Run;
    var r5 := ['"'] + rest;
    var r3 := ['\\'] + (['\''] + r5);
    var r1 := ['\''] + (['\''] + r3);
    EvaluatorOpens(r1);
    EvaluatorSwitches(r3);
    FirstOf('\'', r5);
    FirstOf('\\', ['\''] + r5);
    assert r3[2..] == r5;
    RunEscape(r3, false, "", CAUGHT_UP);
    assert "" + "'" == "'";
    FirstOf('"', rest);
    RunQuote(r5, false, Bare, "'", CAUGHT_UP);
    assert "\"''\\'\"" + rest == ['"'] + r1;
  }

  lemma EvaluatorOpens(rest: string)
    ensures Run(['"'] + rest, true, Bare, "", CAUGHT_UP) == Run(rest, false, Double, "", CAUGHT_UP)
  {
    hide Run;
    FirstOf('"', rest);
    RunQuote(['"'] + rest, true, Bare, "", CAUGHT_UP);
  }

  lemma EvaluatorSwitches(rest: string)
    ensures Run(['\''] + (['\''] + rest), false, Double, "", CAUGHT_UP) == Run(rest, false, Bare, "", CAUGHT_UP)
  {
    hide Run;
    FirstOf('\'', ['\''] + rest);
    FirstOf('\'', rest);
    RunQuote(['\''] + (['\''] + rest), false, Double, "", CAUGHT_UP);
    RunQuote(['\''] + rest, false, Single, "", CAUGHT_UP);
  }

  /** One character inside double quotes, or the quote that opens or closes them. */
  lemma UnquoteDouble(rest: string, start: bool, output: string, variables: map<string, string>)
    requires rest != ""
    ensures rest[0] == '"' ==>
              && Unquote(rest, start, Bare, output, variables) == Unquote(rest[1..], false, Double, output, variables)
              && Unquote(rest, start, Double, output, variables) == Unquote(rest[1..], false, Bare, output, variables)
    ensures rest[0] == '\'' || (|rest| > 1 && rest[0] == '\\' && rest[1] == '\'') ==>
              Unquote(rest, start, Double, output, variables) ==
              Unquote(rest[1..], false, Double, output + [rest[0]], variables)
  {
    hide VariableReference, SkipBlanks, IsOperator, LineEnds;
  }

  lemma ShellApostrophe(rest: string, output: string)
    ensures Unquote(['\''] + rest, false, Double, output, CAUGHT_UP) ==
            Unquote(rest, false, Double, output + ['\''], CAUGHT_UP)
  {
    hide Unquote;
    FirstOf('\'', rest);
    UnquoteDouble(['\''] + rest, false, output, CAUGHT_UP);
  }

  lemma ShellQuotedPart(rest: string)
    ensures Unquote("\"''\\'\"" + rest, true, Bare, "", CAUGHT_UP) == Unquote(rest, false, Bare, "''\\'", CAUGHT_UP)
  {
    hide Unquote;
    var r5 := ['"'] + rest;
    var r4 := ['\''] + r5;
    var r3 := ['\\'] + r4;
    var r2 := ['\''] + r3;
    var r1 := ['\''] + r2;
    FirstOf('"', r1);
    UnquoteDouble(['"'] + r1, true, "", CAUGHT_UP);
    ShellApostrophe(r2, "");
    ShellApostrophe(r3, "" + ['\'']);
    FirstOf('\\', r4);
    UnquoteDouble(r3, false, "" + ['\''] + ['\''], CAUGHT_UP);
    ShellApostrophe(r5, "" + ['\''] + ['\''] + ['\\']);
    FirstOf('"', rest);
    UnquoteDouble(r5, false, "" + ['\''] + ['\''] + ['\\'] + ['\''], CAUGHT_UP);
    assert "" + ['\''] + ['\''] + ['\\'] + ['\''] == "''\\'";
    assert "\"''\\'\"" + rest == ['"'] + r1;
  }

  lemma EvaluatorFirstReference(rest: string)
    ensures Run("$r\\'" + rest, false, Double, "'", CAUGHT_UP) == Run(rest, false, Single, "''\\", CAUGHT_UP)
  {
    hide VariableReference, SkipBlanks, IsOperator;
    var r6, r7, r8, r9 := "$r\\'" + rest, "r\\'" + rest, "\\'" + rest, "'" + rest;
    assert r6[1..] == r7 && r7[1..] == r8 && r8[1..] == r9 && r9[1..] == rest;
    assert r6[2..] == r8;
    ReferenceIs(r6, 'r');
    assert "'" + "'" == "''";
    assert Run(r6, false, Double, "'", CAUGHT_UP) == Run(r8, false, Double, "''", CAUGHT_UP);
    assert "''" + "\\" == "''\\";
    assert Run(r8, false, Double, "''", CAUGHT_UP) == Run(r9, false, Double, "''\\", CAUGHT_UP);
    assert Run(r9, false, Double, "''\\", CAUGHT_UP) == Run(rest, false, Single, "''\\", CAUGHT_UP);
  }

  lemma ShellFirstReference(rest: string)
    ensures Unquote("$r\\'" + rest, false, Bare, "''\\'", CAUGHT_UP) == Unquote(rest, false, Bare, "''\\'''", CAUGHT_UP)
  {
    hide VariableReference, SkipBlanks, IsOperator;
    var r6, r7, r8, r9 := "$r\\'" + rest, "r\\'" + rest, "\\'" + rest, "'" + rest;
    assert r6[1..] == r7 && r7[1..] == r8 && r8[1..] == r9 && r9[1..] == rest;
    assert r6[2..] == r8;
    ReferenceIs(r6, 'r');
    assert "''\\'" + "'" == "''\\''";
    assert Unquote(r6, false, Bare, "''\\'", CAUGHT_UP) == Unquote(r8, false, Bare, "''\\''", CAUGHT_UP);
    assert "''\\''" + "'" == "''\\'''";
    assert Unquote(r8, false, Bare, "''\\''", CAUGHT_UP) == Unquote(rest, false, Bare, "''\\'''", CAUGHT_UP);
  }

  lemma EvaluatorSecondReference(rest: string)
    ensures Run("'$v\\'" + rest, false, Single, "''\\", CAUGHT_UP) == Run(rest, false, Bare, "''\\'''$v\\''", CAUGHT_UP)
  {
    hide Run;
    var r10, r11, r13 := "'$v\\'" + rest, "$v\\'" + rest, "\\'" + rest;
    assert r10[1..] == r11 && r11[2..] == r13 && r13[2..] == rest;
    RunQuote(r10, false, Single, "''\\", CAUGHT_UP);
    RunVariable(r11, 'v', false, Bare, "''\\", CAUGHT_UP);
    assert "''\\" + "'''$v\\'" == "''\\'''$v\\'";
    RunEscape(r13, false, "''\\'''$v\\'", CAUGHT_UP);
    assert "''\\'''$v\\'" + "'" == "''\\'''$v\\''";
  }

  lemma ShellSecondReference(rest: string)
    ensures Unquote("'$v\\'" + rest, false, Bare, "''\\'''", CAUGHT_UP) ==
              Unquote(rest, false, Bare, "''\\'''$v\\", CAUGHT_UP)
  {
    hide VariableReference, SkipBlanks, IsOperator;
    var r10, r11, r12, r13, r14 := "'$v\\'" + rest, "$v\\'" + rest, "v\\'" + rest, "\\'" + rest, "'" + rest;
    assert r10[1..] == r11 && r11[1..] == r12 && r12[1..] == r13 && r13[1..] == r14 && r14[1..] == rest;
    assert Unquote(r10, false, Bare, "''\\'''", CAUGHT_UP) == Unquote(r11, false, Single, "''\\'''", CAUGHT_UP);
    assert "''\\'''" + "$" == "''\\'''$";
    assert Unquote(r11, false, Single, "''\\'''", CAUGHT_UP) == Unquote(r12, false, Single, "''\\'''$", CAUGHT_UP);
    assert "''\\'''$" + "v" == "''\\'''$v";
    assert Unquote(r12, false, Single, "''\\'''$", CAUGHT_UP) == Unquote(r13, false, Single, "''\\'''$v", CAUGHT_UP);
    assert "''\\'''$v" + "\\" == "''\\'''$v\\";
    assert Unquote(r13, false, Single, "''\\'''$v", CAUGHT_UP) == Unquote(r14, false, Single, "''\\'''$v\\", CAUGHT_UP);
    assert Unquote(r14, false, Single, "''\\'''$v\\", CAUGHT_UP) ==
      Unquote(rest, false, Bare, "''\\'''$v\\", CAUGHT_UP);
  }

  lemma EvaluatorLastPart(rest: string)
    ensures Run("\"''\"''" + rest, false, Bare, "''\\'''$v\\''", CAUGHT_UP) ==
              Run(rest, false, Bare, "''\\'''$v\\''", CAUGHT_UP)
  {
    hide Run;
    var r15, r16, r17, r18, r19, r20 := "\"''\"''" + rest, "''\"''" + rest, "'\"''" + rest, "\"''" + rest, "''" + rest,
      "'" + rest;
    assert r15[1..] == r16 && r16[1..] == r17 && r17[1..] == r18 && r18[1..] == r19 && r19[1..] == r20
      && r20[1..] == rest;
    var output := "''\\'''$v\\''";
    RunQuote(r15, false, Bare, output, CAUGHT_UP);
    RunQuote(r16, false, Double, output, CAUGHT_UP);
    RunQuote(r17, false, Single, output, CAUGHT_UP);
    RunQuote(r18, false, Bare, output, CAUGHT_UP);
    RunQuote(r19, false, Double, output, CAUGHT_UP);
    RunQuote(r20, false, Single, output, CAUGHT_UP);
  }

  lemma ShellLastPart(rest: string)
    ensures Unquote("\"''\"''" + rest, false, Bare, "''\\'''$v\\", CAUGHT_UP) ==
              Unquote(rest, false, Bare, "''\\'''$v\\''", CAUGHT_UP)
  {
    hide VariableReference, SkipBlanks, IsOperator;
    var r15, r16, r17, r18, r19, r20 := "\"''\"''" + rest, "''\"''" + rest, "'\"''" + rest, "\"''" + rest, "''" + rest,
      "'" + rest;
    assert r15[1..] == r16 && r16[1..] == r17 && r17[1..] == r18 && r18[1..] == r19 && r19[1..] == r20
      && r20[1..] == rest;
    assert Unquote(r15, false, Bare, "''\\'''$v\\", CAUGHT_UP) == Unquote(r16, false, Double, "''\\'''$v\\", CAUGHT_UP);
    assert "''\\'''$v\\" + "'" == "''\\'''$v\\'";
    assert Unquote(r16, false, Double, "''\\'''$v\\", CAUGHT_UP) ==
      Unquote(r17, false, Double, "''\\'''$v\\'", CAUGHT_UP);
    assert "''\\'''$v\\'" + "'" == "''\\'''$v\\''";
    assert Unquote(r17, false, Double, "''\\'''$v\\'", CAUGHT_UP) ==
      Unquote(r18, false, Double, "''\\'''$v\\''", CAUGHT_UP);
    assert Unquote(r18, false, Double, "''\\'''$v\\''", CAUGHT_UP) ==
      Unquote(r19, false, Bare, "''\\'''$v\\''", CAUGHT_UP);
    assert Unquote(r19, false, Bare, "''\\'''$v\\''", CAUGHT_UP) ==
      Unquote(r20, false, Single, "''\\'''$v\\''", CAUGHT_UP);
    assert Unquote(r20, false, Single, "''\\'''$v\\''", CAUGHT_UP) ==
      Unquote(rest, false, Bare, "''\\'''$v\\''", CAUGHT_UP);
  }

  /** An apostrophe inside double quotes makes the two readings part, but not for
      good: through the values of its variables this word has the same value in
      both, so no condition on the spots alone is exact for such words. */
  lemma ApostrophesMayCancel()
    ensures Evaluate(ODD, CAUGHT_UP) == ShellValue(ODD, CAUGHT_UP) == Some("''\\'''$v\\''")
    ensures !ReadsAlike(ODD, true, true, Bare) && !NoInnerApostrophe(ODD, true, Bare)
  {
    hide Run, Unquote;
    var r15 := "\"''\"''" + "";
    var r10 := "'$v\\'" + r15;
    var r6 := "$r\\'" + r10;
    assert ODD == "\"''\\'\"" + r6;
    EvaluatorQuotedPart(r6);
    EvaluatorFirstReference(r10);
    EvaluatorSecondReference(r15);
    EvaluatorLastPart("");
    ShellQuotedPart(r6);
    ShellFirstReference(r10);
    ShellSecondReference(r15);
    ShellLastPart("");
    NothingLeft("''\\'''$v\\''");
    var r1 := ODD[1..];
    assert r1[0] == '\'';
  }

  lemma NothingLeft(output: string)
    ensures Run("", false, Bare, output, CAUGHT_UP) == Unquote("", false, Bare, output, CAUGHT_UP) == Some(output)
  {
  }
}
