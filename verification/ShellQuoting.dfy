/** The word evaluator of ShellWord undoes shell quoting, as section 2.2 of the
    POSIX.1-2017 Shell Command Language describes it. */
module ShellQuoting {
  import opened Text
  import opened ShellWord

  // ---------------------------------------------------------------- single quotes

  /** `s` inside single quotes: each apostrophe closed, escaped and reopened. */
  function Apostrophes(s: string): string {
    if s == "" then "" else (if s[0] == '\'' then "'\\''" else [s[0]]) + Apostrophes(s[1..])
  }

  function SingleQuoted(s: string): string {
    "'" + (Apostrophes(s) + "'")
  }

  lemma {:induction false} RunsApostrophes(s: string, post: string, f: bool, output: string,
                                           variables: map<string, string>)
    ensures Run(Apostrophes(s) + ("'" + post), f, Single, output, variables) ==
              Run(post, false, Bare, output + s, variables)
    decreases |s|
  {
    var rest := Apostrophes(s) + ("'" + post);
    if s == "" {
      assert rest == "'" + post && rest[1..] == post && output + s == output;
    } else {
      var tail := Apostrophes(s[1..]) + ("'" + post);
      assert output + s == (output + [s[0]]) + s[1..];
      if s[0] == '\'' {
        assert rest == "'\\''" + tail;
        assert rest[1..] == "\\''" + tail;
        assert rest[1..][1..] == "''" + tail;
        assert rest[1..][1..][1..] == "'" + tail;
        assert rest[1..][1..][1..][1..] == tail;
        RunsEscapedApostrophe(tail, output, f, variables);
      } else {
        assert rest == [s[0]] + tail && rest[1..] == tail;
      }
      RunsApostrophes(s[1..], post, if s[0] == '\'' then false else IsBlank(s[0]), output + [s[0]], variables);
    }
  }

  lemma RunsEscapedApostrophe(tail: string, output: string, f: bool, variables: map<string, string>)
    ensures Run("'\\''" + tail, f, Single, output, variables) == Run(tail, false, Single, output + ['\''], variables)
  {
    var a, b, c := "'\\''" + tail, "\\''" + tail, "'" + tail;
    assert a[1..] == b && b[1..][1..] == c && c[1..] == tail;
    assert b[1..][0] == '\'';
    assert Run(c, false, Bare, output + ['\''], variables) == Run(tail, false, Single, output + ['\''], variables);
    assert Run(b, false, Bare, output, variables) == Run(c, false, Bare, output + ['\''], variables);
  }

  /** Every string survives single quoting, whatever the variables are. */
  lemma SingleQuotesRoundTrip(s: string, variables: map<string, string>)
    ensures Evaluate(SingleQuoted(s), variables) == Some(s)
  {
    var input := SingleQuoted(s);
    assert input[1..] == Apostrophes(s) + ("'" + "");
    RunsApostrophes(s, "", false, "", variables);
    assert "" + s == s;
  }

  // ---------------------------------------------------------------- double quotes

  function Backslashes(s: string): string {
    if s == "" then "" else (if IsSpecial(s[0]) then ['\\', s[0]] else [s[0]]) + Backslashes(s[1..])
  }

  function DoubleQuoted(s: string): string {
    "\"" + (Backslashes(s) + "\"")
  }

  /** The unescaped characters of `s` fit behind `n` others. */
  predicate Fits(n: nat, s: string) {
    forall i :: 0 <= i < |s| && !IsSpecial(s[i]) ==> n + i + 1 <= MAX_VALUE
  }

  lemma {:induction false} RunsBackslashes(s: string, f: bool, output: string, variables: map<string, string>)
    requires '\'' !in s
    ensures Run(Backslashes(s) + "\"", f, Double, output, variables) == if Fits(|output|, s) then Some(output + s)
              else None
    decreases |s|
  {
    var rest := Backslashes(s) + "\"";
    if s == "" {
      assert rest == "\"" && rest[1..] == "" && output + s == output;
    } else {
      var c, tail := s[0], Backslashes(s[1..]) + "\"";
      assert output + s == (output + [c]) + s[1..];
      assert forall i :: 0 <= i < |s[1..]| ==> s[1..][i] == s[i + 1];
      assert s == [c] + s[1..];
      if IsSpecial(c) {
        assert rest == ['\\', c] + tail && rest[1..] == [c] + tail && rest[1..][1..] == tail;
      } else {
        assert rest == [c] + tail && rest[1..] == tail && c != '\'';
      }
      FitsStep(|output|, s);
      RunsBackslashes(s[1..], IsBlank(c), output + [c], variables);
    }
  }

  lemma FitsStep(n: nat, s: string)
    requires s != ""
    ensures Fits(n, s) <==> (IsSpecial(s[0]) || n + 1 <= MAX_VALUE) && Fits(n + 1, s[1..])
  {
    if (IsSpecial(s[0]) || n + 1 <= MAX_VALUE) && Fits(n + 1, s[1..]) {
      forall i | 0 <= i < |s| && !IsSpecial(s[i]) ensures n + i + 1 <= MAX_VALUE {
        assert i > 0 ==> s[1..][i - 1] == s[i];
      }
    }
  }

  /** A reading that starts with a special character goes on behind it, having
      written it; outside double quotes its backslash may be written too. */
  lemma ReadsEscaped(c: char, tail: string, f: bool, quote: Quote, output: string, variables: map<string, string>)
    requires IsSpecial(c)
    ensures Run(['\\', c] + tail, f, quote, output, variables) ==
            Run(tail, IsBlank(c), quote, (if quote.Single? then output + ['\\'] else output) + [c], variables)
  {
    hide VariableReference, SkipBlanks, IsOperator;
    var rest := ['\\', c] + tail;
    assert rest[1..] == [c] + tail && rest[1..][1..] == tail;
  }

  /** Any other character is written, or switches the quotes, or is the end. */
  lemma ReadsPlain(c: char, tail: string, f: bool, quote: Quote, output: string, variables: map<string, string>)
    requires !IsSpecial(c)
    ensures var r := Run([c] + tail, f, quote, output, variables);
            || r.None? || r == Some(output)
            || (c == '\'' && r == Run(tail, false, if quote.Single? then Bare else Single, output, variables))
            || (c != '\'' && r == Run(tail, IsBlank(c), quote, output + [c], variables))
  {
    hide VariableReference, SkipBlanks, IsOperator;
    assert ([c] + tail)[1..] == tail;
  }

  /** No reading of a double-quoted string ever writes an apostrophe. */
  lemma {:induction false} NeverWritesApostrophes(s: string, f: bool, quote: Quote, output: string,
                                                  variables: map<string, string>)
    requires '\'' !in output
    ensures var r := Run(Backslashes(s) + "\"", f, quote, output, variables); r.Some? ==> '\'' !in r.value
    decreases |s|
  {
    var rest := Backslashes(s) + "\"";
    if s == "" {
      QuoteAlone(f, quote, output, variables);
    } else {
      hide Run;
      var c, tail := s[0], Backslashes(s[1..]) + "\"";
      if IsSpecial(c) {
        assert rest == ['\\', c] + tail;
        ReadsEscaped(c, tail, f, quote, output, variables);
        var more := (if quote.Single? then output + ['\\'] else output) + [c];
        NeverWritesApostrophes(s[1..], IsBlank(c), quote, more, variables);
      } else {
        assert rest == [c] + tail;
        ReadsPlain(c, tail, f, quote, output, variables);
        if c == '\'' {
          NeverWritesApostrophes(s[1..], false, if quote.Single? then Bare else Single, output, variables);
        } else {
          NeverWritesApostrophes(s[1..], IsBlank(c), quote, output + [c], variables);
        }
      }
    }
  }

  lemma QuoteAlone(f: bool, quote: Quote, output: string, variables: map<string, string>)
    ensures var r := Run("" + "\"", f, quote, output, variables); r.Some? ==> r.value == output
  {
    var rest := "" + "\"";
    assert rest == "\"" && rest[1..] == "";
  }

  /** A string survives double quoting exactly when it holds no apostrophe and
      nothing but escaped characters behind its first 8192. */
  lemma DoubleQuotesRoundTrip(s: string, variables: map<string, string>)
    ensures Evaluate(DoubleQuoted(s), variables) == Some(s) <==>
            '\'' !in s && forall i :: MAX_VALUE <= i < |s| ==> IsSpecial(s[i])
  {
    var input := DoubleQuoted(s);
    assert input[1..] == Backslashes(s) + "\"" && "" + s == s;
    NeverWritesApostrophes(s, false, Double, "", variables);
    if '\'' !in s {
      RunsBackslashes(s, false, "", variables);
    }
  }
}
