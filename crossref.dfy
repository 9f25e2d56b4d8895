/** The script that builds the dictionary file: a lookup table of
    part-of-speech codes from the Moby list, then one line word@code for
    every word of the SCOWL list, with suffix heuristics for derived words
    and '?' when none applies. */
module Crossref {
  import opened Util
  import WordDictionary

  const SEPARATOR: char := '@'

  function Strip(s: string): string {
    WordDictionary.Trim(s)
  }

  /** str.split on the separator gives exactly two parts. */
  function SplitTwo(s: string): (r: Option<(string, string)>)
    ensures r.Some? ==> (s == r.value.0 + [SEPARATOR] + r.value.1 &&
      SEPARATOR !in r.value.0 && SEPARATOR !in r.value.1)
  {
    var k := WordDictionary.FindChar(s, SEPARATOR);
    if k.None? then None
    else if SEPARATOR in s[k.value + 1..] then None
    else
      assert s == s[..k.value] + [SEPARATOR] + s[k.value + 1..];
      assert SEPARATOR !in s[..k.value] by {
        forall i | 0 <= i < k.value ensures s[..k.value][i] != SEPARATOR {}
      }
      Some((s[..k.value], s[k.value + 1..]))
  }

  /** The first c in a + [c] + b is the one after a, when a holds none. */
  lemma LocateFirst(a: string, c: char, b: string)
    requires c !in a
    ensures WordDictionary.FindChar(a + [c] + b, c) == Some(|a|)
  {
    var s := a + [c] + b;
    assert forall j :: 0 <= j < |a| ==> s[j] == a[j];
    assert s[|a|] == c;
  }

  /** Any line with exactly one separator splits around it. */
  lemma SplitTwoExact(a: string, b: string)
    requires SEPARATOR !in a && SEPARATOR !in b
    ensures SplitTwo(a + [SEPARATOR] + b) == Some((a, b))
  {
    var s := a + [SEPARATOR] + b;
    LocateFirst(a, SEPARATOR, b);
    assert s[..|a|] == a;
    assert s[|a| + 1..] == b;
  }

  // ---------------------------------------------------------------------
  // The lookup table.

  /** What one Moby line contributes: the lower-cased word and its code,
      when the stripped line splits in two. */
  function EntryOf(line: string): (r: Option<(string, string)>)
    ensures r.Some? <==> SplitTwo(Strip(line)).Some?
  {
    var parts := SplitTwo(Strip(line));
    if parts.None? then None else Some((ToLower(parts.value.0), parts.value.1))
  }

  /** Keys are lower-cased and the first occurrence of a word wins. */
  function BuildTable(lines: seq<string>): map<string, string> {
    if lines == [] then map[]
    else
      var m := BuildTable(lines[..|lines| - 1]);
      var e := EntryOf(lines[|lines| - 1]);
      if e.None? || e.value.0 in m then m else m[e.value.0 := e.value.1]
  }

  /** Line i of the Moby list gives an entry for k. */
  predicate Gives(lines: seq<string>, i: int, k: string) {
    0 <= i < |lines| && EntryOf(lines[i]).Some? && EntryOf(lines[i]).value.0 == k
  }

  lemma {:induction false} TablePresent(lines: seq<string>, k: string)
    ensures k in BuildTable(lines) <==> exists i :: Gives(lines, i, k)
  {
    if lines != [] {
      var init := lines[..|lines| - 1];
      var n := |lines| - 1;
      TablePresent(init, k);
      TableKeysStep(lines, k);
      if k in BuildTable(init) {
        var i :| Gives(init, i, k);
        GivesPrefix(lines, i, k);
      }
      if exists i :: Gives(lines, i, k) {
        var i :| Gives(lines, i, k);
        if i < n {
          GivesPrefix(lines, i, k);
        }
      }
    }
  }

  lemma TableKeysStep(lines: seq<string>, k: string)
    requires lines != []
    ensures k in BuildTable(lines) <==> k in BuildTable(lines[..|lines| - 1]) || Gives(lines, |lines| - 1, k)
  {
  }

  lemma GivesPrefix(lines: seq<string>, i: nat, k: string)
    requires i < |lines| - 1
    ensures Gives(lines, i, k) == Gives(lines[..|lines| - 1], i, k)
  {
    assert lines[i] == lines[..|lines| - 1][i];
  }

  /** The code kept for a word is the one on the first line giving it;
      lines that do not split in two are ignored. */
  lemma {:induction false} TableFirstWins(lines: seq<string>, k: string, i: int)
    requires Gives(lines, i, k) && forall j :: 0 <= j < i ==> !Gives(lines, j, k)
    ensures k in BuildTable(lines) && BuildTable(lines)[k] == EntryOf(lines[i]).value.1
  {
    var init := lines[..|lines| - 1];
    var n := |lines| - 1;
    if i < n {
      assert Gives(init, i, k) by { assert lines[i] == init[i]; }
      forall j | 0 <= j < i ensures !Gives(init, j, k) {
        assert lines[j] == init[j];
        assert !Gives(lines, j, k);
      }
      TableFirstWins(init, k, i);
    } else {
      TablePresent(init, k);
      forall j | 0 <= j < |init| ensures !Gives(init, j, k) {
        assert lines[j] == init[j];
        assert !Gives(lines, j, k);
      }
    }
  }

  // ---------------------------------------------------------------------
  // String helpers with Python's meaning.

  /** str.replace(x, y, 1) on single characters. */
  function ReplaceFirst(s: string, x: char, y: char): (r: string)
    ensures |r| == |s|
  {
    if s == [] then []
    else if s[0] == x then [y] + s[1..]
    else [s[0]] + ReplaceFirst(s[1..], x, y)
  }

  /** str.replace(x, '') on a single character. */
  function RemoveAll(s: string, x: char): (r: string)
    ensures x !in r
  {
    if s == [] then []
    else if s[0] == x then RemoveAll(s[1..], x)
    else [s[0]] + RemoveAll(s[1..], x)
  }

  function Count(s: string, x: char): (n: nat)
    ensures n <= |s| && (n == 0 <==> x !in s)
  {
    if s == [] then 0 else (if s[0] == x then 1 else 0) + Count(s[1..], x)
  }

  predicate EndsWith(s: string, suffix: string) {
    |s| >= |suffix| && s[|s| - |suffix|..] == suffix
  }

  function DropLast(s: string, k: nat): string
    requires k <= |s|
  {
    s[..|s| - k]
  }

  const PLACEHOLDER: char := '&'

  /** The plural rule's chained replacements: the first N and first A
      merge into one p. */
  function PluralCollapse(code: string): string {
    RemoveAll(ReplaceFirst(ReplaceFirst(ReplaceFirst(code, 'N', PLACEHOLDER), 'A', PLACEHOLDER), PLACEHOLDER, 'p'), PLACEHOLDER)
  }

  /** The 'ed'/'ing' rules' chained replacements: the first N, p and A
      merge into one A. */
  function AdjectiveCollapse(code: string): string {
    RemoveAll(ReplaceFirst(ReplaceFirst(ReplaceFirst(ReplaceFirst(code, 'N', PLACEHOLDER), 'p', PLACEHOLDER), 'A', PLACEHOLDER), PLACEHOLDER, 'A'), PLACEHOLDER)
  }

  // ---------------------------------------------------------------------
  // The code for one word.

  datatype Rule = Exact | PluralOfStem | PastOfStem | GerundOfStem | Fallback

  /** Which branch the word takes, in the script's order. */
  function RuleFor(table: map<string, string>, word: string): Rule {
    if word in table then Exact
    else if EndsWith(word, "s") && DropLast(word, 1) in table then PluralOfStem
    else if EndsWith(word, "ed") && (DropLast(word, 2) in table || DropLast(word, 1) in table) then PastOfStem
    else if EndsWith(word, "ing") && (DropLast(word, 3) in table || DropLast(word, 3) + "e" in table) then GerundOfStem
    else Fallback
  }

  function DeriveCode(table: map<string, string>, word: string): string {
    match RuleFor(table, word)
      case Exact =>
        var orig := table[word];
        if |word| >= 1 && word[0] == 'a' && |orig| >= 1 && orig[0] == 'D' then ReplaceFirst(orig, 'D', 'I') else orig
      case PluralOfStem =>
        var orig := table[DropLast(word, 1)];
        if 'N' !in orig then ReplaceFirst(orig, 'A', 'p') else PluralCollapse(orig)
      case PastOfStem =>
        var orig := if DropLast(word, 2) in table then table[DropLast(word, 2)] else table[DropLast(word, 1)];
        AdjectiveCollapse(orig)
      case GerundOfStem =>
        var orig := if DropLast(word, 3) in table then table[DropLast(word, 3)] else table[DropLast(word, 3) + "e"];
        AdjectiveCollapse(orig)
      case Fallback =>
        if EndsWith(word, "s") && !EndsWith(word, "es") && !EndsWith(word, "ss") then "p" else "?"
  }

  /** One output line. */
  function Line(table: map<string, string>, word: string): string {
    word + [SEPARATOR] + DeriveCode(table, word) + "\n"
  }

  function Output(table: map<string, string>, words: seq<string>): string {
    if words == [] then [] else Line(table, Strip(words[0])) + Output(table, words[1..])
  }

  /** The script: build the table, then write one line per word. */
  method CrossReference(moby: seq<string>, scowl: seq<string>) returns (out: string)
    ensures out == Output(BuildTable(moby), scowl)
  {
    var table: map<string, string> := map[];
    for i := 0 to |moby|
      invariant table == BuildTable(moby[..i])
    {
      assert moby[..i + 1][..i] == moby[..i];
      var parts := SplitTwo(Strip(moby[i]));
      if parts.Some? {
        var word := ToLower(parts.value.0);
        if !(word in table) {
          table := table[word := parts.value.1];
        }
      }
    }
    assert moby[..|moby|] == moby;
    out := [];
    for i := 0 to |scowl|
      invariant out + Output(table, scowl[i..]) == Output(table, scowl)
    {
      assert scowl[i..][1..] == scowl[i + 1..];
      var word := Strip(scowl[i]);
      Assoc(out, Line(table, word), Output(table, scowl[i + 1..]));
      out := out + Line(table, word);
    }
  }

  // ---------------------------------------------------------------------
  // Properties.

  lemma {:induction false} ReplaceFirstAbsent(s: string, x: char, y: char)
    requires x !in s
    ensures ReplaceFirst(s, x, y) == s
  {
    if s != [] {
      ReplaceFirstAbsent(s[1..], x, y);
    }
  }

  lemma {:induction false} ReplaceFirstCounts(s: string, x: char, y: char, c: char)
    requires x != y
    ensures Count(ReplaceFirst(s, x, y), c) ==
      Count(s, c) + (if x in s && c == y then 1 else 0) - (if x in s && c == x then 1 else 0)
  {
    if s != [] && s[0] != x {
      ReplaceFirstCounts(s[1..], x, y, c);
      assert x in s <==> x in s[1..];
    }
  }

  lemma {:induction false} RemoveAllLength(s: string, x: char)
    ensures |RemoveAll(s, x)| == |s| - Count(s, x)
    ensures forall c :: c != x ==> (c in RemoveAll(s, x) <==> c in s)
  {
    if s != [] {
      RemoveAllLength(s[1..], x);
      assert forall c :: c in s <==> c == s[0] || c in s[1..];
    }
  }

  /** With no placeholder in the code: the plural rule's result has none,
      contains p, and is one shorter when the code has both N and A. */
  lemma PluralCollapseShape(code: string)
    requires PLACEHOLDER !in code && 'N' in code
    ensures PLACEHOLDER !in PluralCollapse(code) && 'p' in PluralCollapse(code)
    ensures |PluralCollapse(code)| == |code| - (if 'A' in code then 1 else 0)
  {
    var s1 := ReplaceFirst(code, 'N', PLACEHOLDER);
    var s2 := ReplaceFirst(s1, 'A', PLACEHOLDER);
    var s3 := ReplaceFirst(s2, PLACEHOLDER, 'p');
    ReplaceFirstCounts(code, 'N', PLACEHOLDER, PLACEHOLDER);
    ReplaceFirstCounts(code, 'N', PLACEHOLDER, 'A');
    ReplaceFirstCounts(s1, 'A', PLACEHOLDER, PLACEHOLDER);
    ReplaceFirstCounts(s2, PLACEHOLDER, 'p', PLACEHOLDER);
    ReplaceFirstCounts(s2, PLACEHOLDER, 'p', 'p');
    RemoveAllLength(s3, PLACEHOLDER);
  }

  /** With no placeholder in the code: the 'ed'/'ing' rules' result has
      none; it is the code itself when there is no N, p or A in it, and
      otherwise holds an A and is shorter by one less than the number of
      those letters present. */
  lemma AdjectiveCollapseShape(code: string)
    requires PLACEHOLDER !in code
    ensures PLACEHOLDER !in AdjectiveCollapse(code)
    ensures !('N' in code || 'p' in code || 'A' in code) ==> AdjectiveCollapse(code) == code
    ensures ('N' in code || 'p' in code || 'A' in code) ==> ('A' in AdjectiveCollapse(code) &&
      |AdjectiveCollapse(code)| == |code| + 1 -
        ((if 'N' in code then 1 else 0) + (if 'p' in code then 1 else 0) + (if 'A' in code then 1 else 0)))
  {
    var s1 := ReplaceFirst(code, 'N', PLACEHOLDER);
    var s2 := ReplaceFirst(s1, 'p', PLACEHOLDER);
    var s3 := ReplaceFirst(s2, 'A', PLACEHOLDER);
    var s4 := ReplaceFirst(s3, PLACEHOLDER, 'A');
    ReplaceFirstCounts(code, 'N', PLACEHOLDER, PLACEHOLDER);
    ReplaceFirstCounts(code, 'N', PLACEHOLDER, 'p');
    ReplaceFirstCounts(code, 'N', PLACEHOLDER, 'A');
    ReplaceFirstCounts(s1, 'p', PLACEHOLDER, PLACEHOLDER);
    ReplaceFirstCounts(s1, 'p', PLACEHOLDER, 'A');
    ReplaceFirstCounts(s2, 'A', PLACEHOLDER, PLACEHOLDER);
    ReplaceFirstCounts(s3, PLACEHOLDER, 'A', PLACEHOLDER);
    ReplaceFirstCounts(s3, PLACEHOLDER, 'A', 'A');
    RemoveAllLength(s4, PLACEHOLDER);
    if !('N' in code || 'p' in code || 'A' in code) {
      ReplaceFirstAbsent(code, 'N', PLACEHOLDER);
      ReplaceFirstAbsent(code, 'p', PLACEHOLDER);
      ReplaceFirstAbsent(code, 'A', PLACEHOLDER);
      ReplaceFirstAbsent(code, PLACEHOLDER, 'A');
      RemoveAllAbsent(code, PLACEHOLDER);
    }
  }

  lemma {:induction false} RemoveAllAbsent(s: string, x: char)
    requires x !in s
    ensures RemoveAll(s, x) == s
  {
    if s != [] {
      RemoveAllAbsent(s[1..], x);
    }
  }

  /** The exact-match branch: the code is copied, except that for a word
      starting with 'a' a leading D becomes I. */
  lemma ExactCode(table: map<string, string>, word: string)
    requires word in table
    ensures var orig := table[word];
      DeriveCode(table, word) ==
        if |word| >= 1 && word[0] == 'a' && |orig| >= 1 && orig[0] == 'D' then ['I'] + orig[1..] else orig
  {
  }

  /** The plural branch, when the stem's code has no placeholder: with no
      N the first A becomes p; with an N, the N and the first A merge into
      a single p. */
  lemma PluralCode(table: map<string, string>, word: string)
    requires RuleFor(table, word) == PluralOfStem
    requires PLACEHOLDER !in table[DropLast(word, 1)]
    ensures var orig := table[DropLast(word, 1)]; var code := DeriveCode(table, word);
      PLACEHOLDER !in code &&
      ('N' !in orig ==> code == ReplaceFirst(orig, 'A', 'p')) &&
      ('N' in orig ==> 'p' in code && |code| == |orig| - (if 'A' in orig then 1 else 0))
  {
    var orig := table[DropLast(word, 1)];
    if 'N' in orig {
      PluralCollapseShape(orig);
    } else {
      ReplaceFirstSub(orig, 'A', 'p');
    }
  }

  /** The 'ed' rule prefers the word minus "ed"; the 'ing' rule prefers
      the bare stem over the stem plus "e". */
  lemma StemPreference(table: map<string, string>, word: string)
    ensures RuleFor(table, word) == PastOfStem && DropLast(word, 2) in table ==>
      DeriveCode(table, word) == AdjectiveCollapse(table[DropLast(word, 2)])
    ensures RuleFor(table, word) == GerundOfStem && DropLast(word, 3) in table ==>
      DeriveCode(table, word) == AdjectiveCollapse(table[DropLast(word, 3)])
    ensures RuleFor(table, word) == PastOfStem ==> word !in table && EndsWith(word, "ed")
  {
  }

  /** A word no rule matches gets p when it looks like a plural, else ?. */
  lemma FallbackCode(table: map<string, string>, word: string)
    requires RuleFor(table, word) == Fallback
    ensures DeriveCode(table, word) == "p" <==> EndsWith(word, "s") && !EndsWith(word, "es") && !EndsWith(word, "ss")
    ensures DeriveCode(table, word) == "?" <==> !(EndsWith(word, "s") && !EndsWith(word, "es") && !EndsWith(word, "ss"))
  {
  }

  /** Splitting on newlines, when no piece holds one. */
  function SplitLines(s: string): seq<string>
    decreases |s|
  {
    if '\n' !in s then (if s == [] then [] else [s])
    else
      var k := WordDictionary.FindChar(s, '\n').value;
      [s[..k]] + SplitLines(s[k + 1..])
  }

  predicate NoNewline(s: string) {
    '\n' !in s
  }

  lemma SplitLinesCons(a: string, rest: string)
    requires NoNewline(a)
    ensures SplitLines(a + "\n" + rest) == [a] + SplitLines(rest)
  {
    var s := a + "\n" + rest;
    LocateFirst(a, '\n', rest);
    assert s[..|a|] == a;
    assert s[|a| + 1..] == rest;
  }

  /** Every input word gives exactly one output line word@code, in order,
      when the input lines hold no newline. */
  lemma {:induction false} OneLinePerWord(table: map<string, string>, words: seq<string>)
    requires forall k :: k in table ==> NoNewline(table[k])
    requires forall i :: 0 <= i < |words| ==> NoNewline(words[i])
    ensures |SplitLines(Output(table, words))| == |words|
    ensures forall i :: 0 <= i < |words| ==>
      SplitLines(Output(table, words))[i] == Strip(words[i]) + [SEPARATOR] + DeriveCode(table, Strip(words[i]))
  {
    if words != [] {
      var w := Strip(words[0]);
      var tail := words[1..];
      assert forall i :: 0 <= i < |tail| ==> tail[i] == words[i + 1];
      OneLinePerWord(table, tail);
      OutputSplitStep(table, words);
      var lines := SplitLines(Output(table, words));
      forall i | 0 < i < |words|
        ensures lines[i] == Strip(words[i]) + [SEPARATOR] + DeriveCode(table, Strip(words[i]))
      {
        assert lines[i] == SplitLines(Output(table, tail))[i - 1];
      }
    }
  }

  /** The first word's line splits off the front of the output. */
  lemma OutputSplitStep(table: map<string, string>, words: seq<string>)
    requires forall k :: k in table ==> NoNewline(table[k])
    requires words != [] && NoNewline(words[0])
    ensures SplitLines(Output(table, words)) ==
      [Strip(words[0]) + [SEPARATOR] + DeriveCode(table, Strip(words[0]))] + SplitLines(Output(table, words[1..]))
  {
    var w := Strip(words[0]);
    var a := w + [SEPARATOR] + DeriveCode(table, w);
    StripNoNewline(words[0]);
    DeriveCodeNoNewline(table, w);
    assert NoNewline(a);
    var restOut := Output(table, words[1..]);
    assert Output(table, words) == (a + "\n") + restOut;
    Assoc(a, "\n", restOut);
    SplitLinesCons(a, restOut);
  }

  lemma {:induction false} StripNoNewline(s: string)
    requires NoNewline(s)
    ensures NoNewline(Strip(s))
  {
    TrimLeftSub(s);
    TrimRightSub(WordDictionary.TrimLeft(s));
  }

  lemma {:induction false} TrimLeftSub(s: string)
    ensures forall c :: c in WordDictionary.TrimLeft(s) ==> c in s
  {
    if |s| > 0 && WordDictionary.IsSpace(s[0]) {
      TrimLeftSub(s[1..]);
    }
  }

  lemma {:induction false} TrimRightSub(s: string)
    ensures forall c :: c in WordDictionary.TrimRight(s) ==> c in s
  {
    if |s| > 0 && WordDictionary.IsSpace(s[|s| - 1]) {
      TrimRightSub(s[..|s| - 1]);
    }
  }

  lemma {:induction false} ReplaceFirstSub(s: string, x: char, y: char)
    ensures forall c :: c in ReplaceFirst(s, x, y) ==> c in s || c == y
  {
    if s != [] && s[0] != x {
      ReplaceFirstSub(s[1..], x, y);
    }
  }

  lemma ReplaceFirstKeeps(s: string, x: char, y: char, c: char)
    requires c !in s && c != y
    ensures c !in ReplaceFirst(s, x, y)
  {
    ReplaceFirstSub(s, x, y);
  }

  lemma RemoveAllKeeps(s: string, x: char, c: char)
    requires c !in s
    ensures c !in RemoveAll(s, x)
  {
    RemoveAllLength(s, x);
  }

  /** None of the rewrites of a stored code introduces a newline. */
  lemma RewritesNoNewline(orig: string)
    requires NoNewline(orig)
    ensures NoNewline(ReplaceFirst(orig, 'D', 'I')) && NoNewline(ReplaceFirst(orig, 'A', 'p'))
    ensures NoNewline(PluralCollapse(orig)) && NoNewline(AdjectiveCollapse(orig))
  {
    ReplaceFirstKeeps(orig, 'D', 'I', '\n');
    ReplaceFirstKeeps(orig, 'A', 'p', '\n');
    var n1 := ReplaceFirst(orig, 'N', PLACEHOLDER);
    ReplaceFirstKeeps(orig, 'N', PLACEHOLDER, '\n');
    var a2 := ReplaceFirst(n1, 'A', PLACEHOLDER);
    ReplaceFirstKeeps(n1, 'A', PLACEHOLDER, '\n');
    ReplaceFirstKeeps(a2, PLACEHOLDER, 'p', '\n');
    RemoveAllKeeps(ReplaceFirst(a2, PLACEHOLDER, 'p'), PLACEHOLDER, '\n');
    var p2 := ReplaceFirst(n1, 'p', PLACEHOLDER);
    ReplaceFirstKeeps(n1, 'p', PLACEHOLDER, '\n');
    var a3 := ReplaceFirst(p2, 'A', PLACEHOLDER);
    ReplaceFirstKeeps(p2, 'A', PLACEHOLDER, '\n');
    ReplaceFirstKeeps(a3, PLACEHOLDER, 'A', '\n');
    RemoveAllKeeps(ReplaceFirst(a3, PLACEHOLDER, 'A'), PLACEHOLDER, '\n');
  }

  lemma DeriveCodeNoNewline(table: map<string, string>, word: string)
    requires forall k :: k in table ==> NoNewline(table[k])
    ensures NoNewline(DeriveCode(table, word))
  {
    match RuleFor(table, word) {
      case Exact => RewritesNoNewline(table[word]);
      case PluralOfStem => RewritesNoNewline(table[DropLast(word, 1)]);
      case PastOfStem =>
        if DropLast(word, 2) in table {
          RewritesNoNewline(table[DropLast(word, 2)]);
        } else {
          RewritesNoNewline(table[DropLast(word, 1)]);
        }
      case GerundOfStem =>
        if DropLast(word, 3) in table {
          RewritesNoNewline(table[DropLast(word, 3)]);
        } else {
          RewritesNoNewline(table[DropLast(word, 3) + "e"]);
        }
      case Fallback =>
    }
  }

  /** A line word@code, with nothing to trim and a word free of the
      separator, loads as the word with the part of speech its code's
      first letter names, or is skipped when that letter is unknown. */
  lemma LineLoads(word: string, code: string)
    requires |word| > 0 && SEPARATOR !in word && !WordDictionary.IsSpace(word[0])
    requires |code| > 0 && !WordDictionary.IsSpace(code[|code| - 1])
    ensures var part := WordDictionary.PartOfSpeechFromCode(code[0]);
      WordDictionary.ParseLine(word + [SEPARATOR] + code) ==
        if part == WordDictionary.NotInDictionary then None else Some(WordDictionary.Entry(word, part))
  {
    var line := word + [SEPARATOR] + code;
    assert WordDictionary.TrimLeft(line) == line;
    assert WordDictionary.TrimRight(line) == line;
    LocateFirst(word, SEPARATOR, code);
    assert line[..|word|] == word;
    assert line[|word| + 1] == code[0];
  }

  /** A fallback line loads back into the dictionary as a plural or as an
      unknown part of speech. */
  lemma FallbackLineLoads(table: map<string, string>, word: string)
    requires RuleFor(table, word) == Fallback
    requires |word| > 0 && SEPARATOR !in word && !WordDictionary.IsSpace(word[0])
    ensures var code := DeriveCode(table, word);
      WordDictionary.ParseLine(word + [SEPARATOR] + code) ==
        Some(WordDictionary.Entry(word, if code == "p" then WordDictionary.Plural else WordDictionary.UnknownPart))
  {
    LineLoads(word, DeriveCode(table, word));
  }
}
