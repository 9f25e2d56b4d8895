/** Quoting one argument for the Windows command prompt: short options
    pass through, simple arguments are wrapped in double quotes, and the
    rest are wrapped in caret-escaped quotes with every metacharacter
    caret-escaped. */
module ShellArgQuoter {
  const CARET: char := '^'
  const QUOTE: char := '"'
  const BACKSLASH: char := '\\'

  /** isalnum in the C locale. */
  predicate IsAlnum(c: char) {
    ('0' <= c <= '9') || ('a' <= c <= 'z') || ('A' <= c <= 'Z')
  }

  /** The characters cmd.exe treats specially. */
  predicate IsMeta(c: char) {
    c == '(' || c == ')' || c == '%' || c == '!' || c == '^' ||
    c == '"' || c == '<' || c == '>' || c == '&' || c == '|'
  }

  predicate IsOption(arg: string) {
    |arg| == 2 && (arg[0] == '/' || arg[0] == '-') && IsAlnum(arg[1])
  }

  predicate NeedsCarets(arg: string) {
    |arg| > 0 && (QUOTE in arg || arg[|arg| - 1] == BACKSLASH)
  }

  function Escape(s: string): string {
    if s == [] then []
    else (if IsMeta(s[0]) then [CARET, s[0]] else [s[0]]) + Escape(s[1..])
  }

  function CountMeta(s: string): nat {
    if s == [] then 0 else (if IsMeta(s[0]) then 1 else 0) + CountMeta(s[1..])
  }

  /** What quote returns, case by case. */
  function Quoted(arg: string): string {
    if arg == [] then [QUOTE, QUOTE]
    else if IsOption(arg) then arg
    else if !NeedsCarets(arg) then [QUOTE] + arg + [QUOTE]
    else [CARET, QUOTE] + Escape(arg) + [CARET, QUOTE]
  }

  /** The escaping loop over the argument. */
  method Quote(arg: string) returns (result: string)
    ensures result == Quoted(arg)
  {
    if |arg| == 0 {
      return [QUOTE, QUOTE];
    }
    if |arg| == 2 && (arg[0] == '/' || arg[0] == '-') && IsAlnum(arg[1]) {
      return arg;
    }
    if !(QUOTE in arg) && arg[|arg| - 1] != BACKSLASH {
      result := [QUOTE] + arg + [QUOTE];
      return;
    }
    result := [CARET, QUOTE];
    for i := 0 to |arg|
      invariant result == [CARET, QUOTE] + EscapePrefix(arg, i)
    {
      EscapePrefixStep(arg, i);
      if IsMeta(arg[i]) {
        result := result + [CARET];
      }
      result := result + [arg[i]];
    }
    EscapePrefixAll(arg);
    result := result + [CARET, QUOTE];
  }

  function EscapePrefix(s: string, i: nat): string
    requires i <= |s|
  {
    if i == 0 then [] else EscapePrefix(s, i - 1) + (if IsMeta(s[i - 1]) then [CARET, s[i - 1]] else [s[i - 1]])
  }

  lemma EscapePrefixStep(s: string, i: nat)
    requires i < |s|
    ensures EscapePrefix(s, i + 1) == EscapePrefix(s, i) + (if IsMeta(s[i]) then [CARET, s[i]] else [s[i]])
  {
  }

  lemma {:induction false} EscapeConcat(a: string, b: string)
    ensures Escape(a + b) == Escape(a) + Escape(b)
  {
    if a == [] {
      assert a + b == b;
    } else {
      assert (a + b)[0] == a[0];
      assert (a + b)[1..] == a[1..] + b;
      EscapeConcat(a[1..], b);
      var head := if IsMeta(a[0]) then [CARET, a[0]] else [a[0]];
      assert head + (Escape(a[1..]) + Escape(b)) == (head + Escape(a[1..])) + Escape(b);
    }
  }

  lemma {:induction false} EscapePrefixIsEscape(s: string, i: nat)
    requires i <= |s|
    ensures EscapePrefix(s, i) == Escape(s[..i])
  {
    if i > 0 {
      EscapePrefixIsEscape(s, i - 1);
      assert s[..i] == s[..i - 1] + [s[i - 1]];
      EscapeConcat(s[..i - 1], [s[i - 1]]);
    }
  }

  lemma EscapePrefixAll(s: string)
    ensures EscapePrefix(s, |s|) == Escape(s)
  {
    EscapePrefixIsEscape(s, |s|);
    assert s[..|s|] == s;
  }

  // ---------------------------------------------------------------------
  // Properties.

  lemma {:induction false} EscapeLength(s: string)
    ensures |Escape(s)| == |s| + CountMeta(s)
  {
    if s != [] {
      EscapeLength(s[1..]);
    }
  }

  /** The length of the result in each case. */
  lemma QuotedLength(arg: string)
    ensures |Quoted(arg)| ==
      if arg == [] then 2
      else if IsOption(arg) then 2
      else if !NeedsCarets(arg) then |arg| + 2
      else |arg| + 4 + CountMeta(arg)
  {
    EscapeLength(arg);
  }

  /** Removing the carets the prompt consumes. */
  function Unescape(s: string): string
    decreases |s|
  {
    if s == [] then []
    else if s[0] == CARET && |s| >= 2 then [s[1]] + Unescape(s[2..])
    else [s[0]] + Unescape(s[1..])
  }

  lemma {:induction false} UnescapeEscape(s: string)
    ensures Unescape(Escape(s)) == s
  {
    if s != [] {
      UnescapeEscape(s[1..]);
      var head := if IsMeta(s[0]) then [CARET, s[0]] else [s[0]];
      var e := head + Escape(s[1..]);
      if IsMeta(s[0]) {
        assert e[0] == CARET && e[1] == s[0] && e[2..] == Escape(s[1..]);
      } else {
        assert e[0] == s[0] && e[1..] == Escape(s[1..]);
      }
      assert s == [s[0]] + s[1..];
    }
  }

  /** How the argument is read back from what quote produced. */
  function Recover(q: string): string {
    if |q| >= 4 && q[..2] == [CARET, QUOTE] && q[|q| - 2..] == [CARET, QUOTE] then Unescape(q[2..|q| - 2])
    else if |q| >= 2 && q[0] == QUOTE && q[|q| - 1] == QUOTE then q[1..|q| - 1]
    else q
  }

  /** Every argument is recovered from its quoted form, so distinct
      arguments quote differently. */
  lemma RecoverQuoted(arg: string)
    ensures Recover(Quoted(arg)) == arg
  {
    var q := Quoted(arg);
    if arg == [] {
    } else if IsOption(arg) {
    } else if !NeedsCarets(arg) {
      assert q[0] == QUOTE && q[..2] != [CARET, QUOTE];
      assert q[1..|q| - 1] == arg;
    } else {
      EscapeLength(arg);
      assert q[..2] == [CARET, QUOTE];
      assert q[|q| - 2..] == [CARET, QUOTE];
      assert q[2..|q| - 2] == Escape(arg);
      UnescapeEscape(arg);
    }
  }

  lemma QuoteInjective(a: string, b: string)
    requires Quoted(a) == Quoted(b)
    ensures a == b
  {
    RecoverQuoted(a);
    RecoverQuoted(b);
  }
}
