/** The static word evaluator of internal/brief/scanner.go.

    It reads one shell word whose value needs no command to be run: quotes,
    backslashes and plain variable references, and gives up on the rest. */
module ShellWord {
  import opened Text

  const MAX_VALUE: nat := 8192

  datatype Quote = Bare | Single | Double

  predicate IsLetter(c: char) {
    c == '_' || 'A' <= c <= 'Z' || 'a' <= c <= 'z'
  }

  predicate IsNameChar(c: char) {
    IsLetter(c) || '0' <= c <= '9'
  }

  predicate IsIdentifier(name: string) {
    name != "" && IsLetter(name[0]) && forall i :: 1 <= i < |name| ==> IsNameChar(name[i])
  }

  predicate IsBlank(c: char) {
    c == ' ' || c == '\t'
  }

  predicate IsOperator(c: char) {
    c in "();&|<>"
  }

  /** The characters that a backslash keeps its meaning before, in double quotes. */
  predicate IsSpecial(c: char) {
    c == '$' || c == '"' || c == '\\' || c == '`'
  }

  /** The number of characters of `s` before the first one that fails `p`. */
  function Span(s: string, p: char -> bool): (n: nat)
    ensures n <= |s|
    ensures forall i :: 0 <= i < n ==> p(s[i])
    ensures n < |s| ==> !p(s[n])
  {
    if s == "" || !p(s[0]) then 0 else 1 + Span(s[1..], p)
  }

  datatype Reference = Reference(name: string, consumed: nat)

  /** A `$name` or `${name}` at the front of `input`. */
  function VariableReference(input: string): (r: Option<Reference>)
    requires input != "" && input[0] == '$'
    ensures r.Some? ==> 1 < r.value.consumed <= |input|
  {
    if |input| < 2 then None
    else if input[1] == '{' then
      var end := Span(input[2..], c => c != '}');
      var name := input[2..][..end];
      if end == |input[2..]| || !IsIdentifier(name) then None else Some(Reference(name, end + 3))
    else
      var n := if IsLetter(input[1]) then 1 + Span(input[2..], c => IsNameChar(c)) else 0;
      if n == 0 then None else Some(Reference(input[1..][..n], n + 1))
  }

  function SkipBlanks(s: string): (n: nat)
    ensures n <= |s|
  {
    Span(s, c => IsBlank(c))
  }

  /** The value of the word `rest`, appended to `output`; None when the word has
      no static value.  `fresh` says that nothing, or a blank, comes before. */
  function Run(rest: string, fresh': bool, quote: Quote, output: string, variables: map<string, string>): Option<string>
    decreases |rest|
  {
    if rest == "" then
      if quote.Bare? then Some(output) else None
    else
      var c, tail := rest[0], rest[1..];
      if quote.Single? then
        if c == '\'' then Run(tail, false, Bare, output, variables)
        else Run(tail, IsBlank(c), Single, output + [c], variables)
      else if c == '\'' then Run(tail, false, Single, output, variables)
      else if c == '"' then Run(tail, false, if quote.Double? then Bare else Double, output, variables)
      else if c == '`' then None
      else if c == '\\' then
        if tail == "" then None
        else if quote.Double? && !IsSpecial(tail[0]) then Run(tail, false, quote, output + [c], variables)
        else Run(tail[1..], IsBlank(tail[0]), quote, output + [tail[0]], variables)
      else if c == '$' then
        match VariableReference(rest)
        case None => None
        case Some(ref) =>
          if ref.name !in variables || |output + variables[ref.name]| > MAX_VALUE then None
          else Run(rest[ref.consumed..], false, quote, output + variables[ref.name], variables)
      else if quote.Bare? && c == '#' && fresh' then Some(output)
      else if quote.Bare? && IsBlank(c) then
        var n := SkipBlanks(rest);
        if n == |rest| || rest[n] == '#' then Some(output) else None
      else if quote.Bare? && IsOperator(c) then None
      else if |output| + 1 > MAX_VALUE then None
      else Run(tail, IsBlank(c), quote, output + [c], variables)
  }

  function Evaluate(input: string, variables: map<string, string>): Option<string> {
    Run(input, true, Bare, "", variables)
  }

  /** One step of Run, with the rest of the word named by its offset in `input`. */
  lemma RunStep(input: string, index: nat, fresh': bool, quote: Quote, output: string, variables: map<string, string>)
    requires index < |input|
    ensures var c := input[index];
            Run(input[index..], fresh', quote, output, variables) ==
            if quote.Single? then
              if c == '\'' then Run(input[index + 1..], false, Bare, output, variables)
              else Run(input[index + 1..], IsBlank(c), Single, output + [c], variables)
            else if c == '\'' then Run(input[index + 1..], false, Single, output, variables)
            else if c == '"' then
              Run(input[index + 1..], false, if quote.Double? then Bare else Double, output, variables)
            else if c == '`' then None
            else if c == '\\' then
              if index + 1 == |input| then None
              else if quote.Double? && !IsSpecial(input[index + 1]) then
                Run(input[index + 1..], false, quote, output + [c], variables)
              else Run(input[index + 2..], IsBlank(input[index + 1]), quote, output + [input[index + 1]], variables)
            else if c == '$' then RunReference(input, index, quote, output, variables)
            else if quote.Bare? && c == '#' && fresh' then Some(output)
            else if quote.Bare? && IsBlank(c) then
              if RestIsComment(input[index..]) then Some(output) else None
            else if quote.Bare? && IsOperator(c) then None
            else if |output| + 1 > MAX_VALUE then None
            else Run(input[index + 1..], IsBlank(c), quote, output + [c], variables)
  {
    hide VariableReference, SkipBlanks, IsOperator, IsSpecial, IsBlank;
    var rest := input[index..];
    assert rest[0] == input[index] && rest[1..] == input[index + 1..];
    if |rest| > 1 {
      assert rest[1..][1..] == input[index + 2..];
    }
    if input[index] == '$' && VariableReference(rest).Some? {
      var consumed := VariableReference(rest).value.consumed;
      assert rest[consumed..] == input[index + consumed..];
    }
  }

  function RunReference(input: string, index: nat, quote: Quote, output: string,
                        variables: map<string, string>): Option<string>
    requires index < |input| && input[index] == '$'
  {
    match VariableReference(input[index..])
    case None => None
    case Some(ref) =>
      if ref.name !in variables || |output + variables[ref.name]| > MAX_VALUE then None
      else Run(input[index + ref.consumed..], false, quote, output + variables[ref.name], variables)
  }

  predicate RestIsComment(rest: string) {
    var n := SkipBlanks(rest);
    n == |rest| || rest[n] == '#'
  }

  method EvaluateStaticShellScalar(input: string, variables: map<string, string>) returns (value: string, ok: bool)
    ensures ok == Evaluate(input, variables).Some?
    ensures ok ==> value == Evaluate(input, variables).value
  {
    hide Run, VariableReference, SkipBlanks, IsOperator, IsSpecial, IsBlank;
    QuotesAreInk();
    var output := "";
    var quote := Bare;
    var index := 0;
    assert input[0..] == input;
    while index < |input|
      invariant index <= |input|
      invariant Run(input[index..], index == 0 || IsBlank(input[index - 1]), quote, output, variables) ==
                  Evaluate(input, variables)
    {
      var character := input[index];
      RunStep(input, index, index == 0 || IsBlank(input[index - 1]), quote, output, variables);
      if quote == Single {
        if character == '\'' {
          quote := Bare;
        } else {
          output := output + [character];
        }
        index := index + 1;
        continue;
      }
      if character == '\'' {
        quote := Single;
        index := index + 1;
        continue;
      }
      if character == '"' {
        quote := if quote == Double then Bare else Double;
        index := index + 1;
        continue;
      }
      if character == '`' {
        return "", false;
      }
      if character == '\\' {
        if index + 1 >= |input| {
          return "", false;
        }
        var next := input[index + 1];
        if quote == Double && !IsSpecial(next) {
          output := output + [character];
        } else {
          output := output + [next];
          index := index + 1;
        }
        index := index + 1;
        continue;
      }
      if character == '$' {
        var ref := VariableReference(input[index..]);
        if ref.None? || ref.value.name !in variables {
          return "", false;
        }
        output := output + variables[ref.value.name];
        if |output| > MAX_VALUE {
          return "", false;
        }
        ReferenceEndsInInk(input[index..]);
        index := index + ref.value.consumed;
        continue;
      }
      if quote == Bare {
        if character == '#' && (index == 0 || IsBlank(input[index - 1])) {
          return output, true;
        }
        if IsBlank(character) {
          var n := SkipBlanks(input[index..]);
          if n == |input| - index || input[index + n] == '#' {
            return output, true;
          }
          return "", false;
        }
        if IsOperator(character) {
          return "", false;
        }
      }
      output := output + [character];
      if |output| > MAX_VALUE {
        return "", false;
      }
      index := index + 1;
    }
    assert input[index..] == "" && Run("", index == 0 || IsBlank(input[index - 1]), quote, output, variables) ==
      if quote.Bare? then Some(output) else None by {
      RunEnds(index == 0 || IsBlank(input[index - 1]), quote, output, variables);
    }
    return output, quote == Bare;
  }

  lemma RunEnds(fresh': bool, quote: Quote, output: string, variables: map<string, string>)
    ensures Run("", fresh', quote, output, variables) == if quote.Bare? then Some(output) else None
  {
  }

  lemma QuotesAreInk()
    ensures !IsBlank('\'') && !IsBlank('"') && !IsBlank('\\')
  {
  }

  lemma ReferenceEndsInInk(input: string)
    requires input != "" && input[0] == '$' && VariableReference(input).Some?
    ensures !IsBlank(input[VariableReference(input).value.consumed - 1])
  {
    if input[1] != '{' {
      var n := Span(input[2..], c => IsNameChar(c));
      assert n > 0 ==> IsNameChar(input[2..][n - 1]);
    }
  }

  /** More variables resolve more words, and none differently. */
  lemma {:induction false} RunGrows(rest: string, f: bool, quote: Quote, output: string, few: map<string, string>,
                                    many: map<string, string>)
    requires forall name :: name in few ==> name in many && many[name] == few[name]
    requires Run(rest, f, quote, output, few).Some?
    ensures Run(rest, f, quote, output, many) == Run(rest, f, quote, output, few)
    decreases |rest|
  {
    hide VariableReference, SkipBlanks, IsOperator;
    if rest != "" {
      var c, tail := rest[0], rest[1..];
      if quote.Single? {
        if c == '\'' { RunGrows(tail, false, Bare, output, few, many); }
        else { RunGrows(tail, IsBlank(c), Single, output + [c], few, many); }
      } else if c == '\'' {
        RunGrows(tail, false, Single, output, few, many);
      } else if c == '"' {
        RunGrows(tail, false, if quote.Double? then Bare else Double, output, few, many);
      } else if c == '\\' {
        if quote.Double? && !IsSpecial(tail[0]) { RunGrows(tail, false, quote, output + [c], few, many); }
        else { RunGrows(tail[1..], IsBlank(tail[0]), quote, output + [tail[0]], few, many); }
      } else if c == '$' {
        var ref := VariableReference(rest).value;
        RunGrows(rest[ref.consumed..], false, quote, output + few[ref.name], few, many);
      } else if quote.Bare? && ((c == '#' && f) || IsBlank(c)) {
      } else {
        RunGrows(tail, IsBlank(c), quote, output + [c], few, many);
      }
    }
  }

  /** The span is determined by where its predicate first fails. */
  lemma {:induction false} SpanIs(s: string, p: char -> bool, n: nat)
    requires n <= |s| && (n < |s| ==> !p(s[n])) && forall i :: 0 <= i < n ==> p(s[i])
    ensures Span(s, p) == n
  {
    if n > 0 {
      SpanIs(s[1..], p, n - 1);
    }
  }
}
