/** A set of patterns with a '*' wildcard allowed at either end: exact
    keys, prefixes "p*", suffixes "*s" and substrings "*s*". A string is
    contained when some pattern matches it. */
module PatternSet {
  import opened Util

  const STAR: char := '*'

  datatype Pattern = Full(key: string) | Prefix(key: string) | Suffix(key: string) | Substring(key: string)

  predicate HasPrefix(w: string, s: string) {
    |s| >= |w| && s[..|w|] == w
  }

  predicate Occurs(w: string, s: string) {
    exists i :: 0 <= i <= |s| && HasPrefix(w, s[i..])
  }

  predicate Matches(p: Pattern, s: string) {
    match p
      case Full(w) => s == w
      case Prefix(w) => HasPrefix(w, s)
      case Suffix(w) => |s| >= |w| && s[|s| - |w|..] == w
      case Substring(w) => Occurs(w, s)
  }

  /** Which kind a pattern string is, by its leading and trailing '*'. */
  function Classify(p: string): Pattern {
    if |p| >= 2 && p[0] == STAR && p[|p| - 1] == STAR then Substring(p[1..|p| - 1])
    else if |p| >= 1 && p[0] == STAR then Suffix(p[1..])
    else if |p| >= 1 && p[|p| - 1] == STAR then Prefix(p[..|p| - 1])
    else Full(p)
  }

  function ClassifyAll(ps: seq<string>): (r: seq<Pattern>)
    ensures |r| == |ps| && forall i :: 0 <= i < |ps| ==> r[i] == Classify(ps[i])
  {
    seq(|ps|, i requires 0 <= i < |ps| => Classify(ps[i]))
  }

  /** The parsed JSON document handed to initFromJson; None stands for
      text that does not parse. */
  datatype Json = JString(s: string) | JArray(items: seq<Json>) | JOther

  predicate AllStrings(items: seq<Json>) {
    forall i :: 0 <= i < |items| ==> items[i].JString?
  }

  function Strings(items: seq<Json>): (r: seq<string>)
    requires AllStrings(items)
    ensures |r| == |items| && forall i :: 0 <= i < |items| ==> r[i] == items[i].s
  {
    seq(|items|, i requires 0 <= i < |items| => items[i].s)
  }

  class PatternSet {
    var patterns: seq<Pattern>
    ghost var source: seq<string>

    ghost predicate Valid()
      reads this
    {
      patterns == ClassifyAll(source)
    }

    constructor ()
      ensures patterns == [] && source == [] && Valid()
    {
      patterns := [];
      source := [];
    }

    /** Whether some pattern matches. */
    function Contains(s: string): bool
      reads this
    {
      exists i :: 0 <= i < |patterns| && Matches(patterns[i], s)
    }

    /** Always succeeds; duplicates are harmless. */
    method InitFromPatternList(list: seq<string>) returns (ok: bool)
      modifies this
      ensures ok && source == list && Valid()
    {
      var ps: seq<Pattern> := [];
      for i := 0 to |list|
        invariant ps == ClassifyAll(list[..i])
      {
        assert list[..i + 1] == list[..i] + [list[i]];
        ps := ps + [Classify(list[i])];
      }
      assert list[..|list|] == list;
      patterns := ps;
      source := list;
      ok := true;
    }

    /** Succeeds on an array of strings, with the same patterns as the
        list; anything else fails and leaves the set empty. */
    method InitFromJson(doc: Option<Json>) returns (ok: bool)
      modifies this
      ensures ok <==> doc.Some? && doc.value.JArray? && AllStrings(doc.value.items)
      ensures ok ==> source == Strings(doc.value.items) && Valid()
      ensures !ok ==> patterns == [] && source == [] && Valid()
    {
      if doc.None? || !doc.value.JArray? {
        Clear();
        return false;
      }
      var items := doc.value.items;
      var list: seq<string> := [];
      for i := 0 to |items|
        invariant AllStrings(items[..i]) && list == Strings(items[..i])
      {
        if !items[i].JString? {
          Clear();
          return false;
        }
        list := list + [items[i].s];
      }
      assert items[..|items|] == items;
      ok := InitFromPatternList(list);
    }

    method Clear()
      modifies this
      ensures patterns == [] && source == [] && Valid()
    {
      patterns := [];
      source := [];
    }
  }

  // ---------------------------------------------------------------------
  // Reference semantics: wildcard matching, '*' standing for any string.

  function Glob(p: string, s: string): bool
    decreases |p| + |s|
  {
    if p == [] then s == []
    else if p[0] == STAR then Glob(p[1..], s) || (s != [] && Glob(p, s[1..]))
    else s != [] && s[0] == p[0] && Glob(p[1..], s[1..])
  }

  predicate NoInnerStar(p: string) {
    forall i :: 0 < i < |p| - 1 ==> p[i] != STAR
  }

  /** A literal head must match the string's head exactly. */
  lemma {:induction false} LiteralThen(w: string, q: string, s: string)
    requires STAR !in w
    ensures Glob(w + q, s) <==> |s| >= |w| && s[..|w|] == w && Glob(q, s[|w|..])
    decreases |w|
  {
    if w == [] {
      assert w + q == q;
      assert s[|w|..] == s;
    } else {
      var p := w + q;
      assert p[0] == w[0] && p[1..] == w[1..] + q;
      assert w == [w[0]] + w[1..];
      if s != [] {
        LiteralThen(w[1..], q, s[1..]);
        if |s| >= |w| {
          assert s[1..][|w| - 1..] == s[|w|..];
          assert s[..|w|] == [s[0]] + s[1..][..|w| - 1];
        }
      }
    }
  }

  /** A leading '*' lets matching start at any position. */
  lemma {:induction false} StarThen(q: string, s: string)
    ensures Glob([STAR] + q, s) <==> exists i :: 0 <= i <= |s| && Glob(q, s[i..])
    decreases |s|
  {
    var p := [STAR] + q;
    assert p[0] == STAR && p[1..] == q;
    assert s[0..] == s;
    if s != [] {
      StarThen(q, s[1..]);
      forall i | 0 <= i <= |s| - 1 ensures s[1..][i..] == s[i + 1..] {}
      if Glob(p, s[1..]) {
        var i :| 0 <= i <= |s| - 1 && Glob(q, s[1..][i..]);
        assert Glob(q, s[i + 1..]);
      }
      if exists i :: 0 <= i <= |s| && Glob(q, s[i..]) {
        var i :| 0 <= i <= |s| && Glob(q, s[i..]);
        if i > 0 {
          assert Glob(q, s[1..][i - 1..]);
        }
      }
    }
  }

  lemma FullIsGlob(w: string, s: string)
    requires STAR !in w
    ensures Glob(w, s) <==> s == w
  {
    LiteralThen(w, [], s);
    assert w + [] == w;
    if |s| >= |w| && s[..|w|] == w && s[|w|..] == [] {
      assert s == s[..|w|] + s[|w|..];
    }
  }

  lemma StarMatchesAll(s: string)
    ensures Glob([STAR], s)
  {
    StarThen([], s);
    assert [STAR] + [] == [STAR];
    assert Glob([], s[|s|..]);
  }

  lemma PrefixIsGlob(w: string, s: string)
    requires STAR !in w
    ensures Glob(w + [STAR], s) <==> HasPrefix(w, s)
  {
    LiteralThen(w, [STAR], s);
    if |s| >= |w| {
      StarMatchesAll(s[|w|..]);
    }
  }

  lemma SuffixIsGlob(w: string, s: string)
    requires STAR !in w
    ensures Glob([STAR] + w, s) <==> |s| >= |w| && s[|s| - |w|..] == w
  {
    StarThen(w, s);
    forall i | 0 <= i <= |s| ensures Glob(w, s[i..]) <==> s[i..] == w {
      FullIsGlob(w, s[i..]);
    }
    if |s| >= |w| && s[|s| - |w|..] == w {
      assert Glob(w, s[|s| - |w|..]);
    }
  }

  lemma SubstringIsGlob(w: string, s: string)
    requires STAR !in w
    ensures Glob([STAR] + (w + [STAR]), s) <==> Occurs(w, s)
  {
    StarThen(w + [STAR], s);
    forall i | 0 <= i <= |s| ensures Glob(w + [STAR], s[i..]) <==> HasPrefix(w, s[i..]) {
      PrefixIsGlob(w, s[i..]);
    }
  }

  /** Classifying a pattern with no inner '*' preserves its wildcard
      meaning: exact, prefix, suffix and substring matching. */
  lemma ClassifyIsGlob(p: string, s: string)
    requires NoInnerStar(p)
    ensures Matches(Classify(p), s) <==> Glob(p, s)
  {
    if |p| >= 2 && p[0] == STAR && p[|p| - 1] == STAR {
      ClassifySubstring(p, s);
    } else if |p| >= 1 && p[0] == STAR {
      ClassifySuffix(p, s);
    } else if |p| >= 1 && p[|p| - 1] == STAR {
      ClassifyPrefix(p, s);
    } else {
      assert STAR !in p by {
        forall i | 0 <= i < |p| ensures p[i] != STAR {}
      }
      FullIsGlob(p, s);
    }
  }

  lemma ClassifySubstring(p: string, s: string)
    requires NoInnerStar(p) && |p| >= 2 && p[0] == STAR && p[|p| - 1] == STAR
    ensures Classify(p) == Substring(p[1..|p| - 1])
    ensures Occurs(p[1..|p| - 1], s) <==> Glob(p, s)
  {
    var w := p[1..|p| - 1];
    assert STAR !in w by {
      forall i | 0 <= i < |w| ensures w[i] != STAR { assert w[i] == p[i + 1]; }
    }
    assert p == [STAR] + (w + [STAR]);
    SubstringIsGlob(w, s);
  }

  lemma ClassifySuffix(p: string, s: string)
    requires NoInnerStar(p) && |p| >= 1 && p[0] == STAR && !(|p| >= 2 && p[|p| - 1] == STAR)
    ensures Classify(p) == Suffix(p[1..])
    ensures (|s| >= |p| - 1 && s[|s| - (|p| - 1)..] == p[1..]) <==> Glob(p, s)
  {
    var w := p[1..];
    assert STAR !in w by {
      forall i | 0 <= i < |w| ensures w[i] != STAR { assert w[i] == p[i + 1]; }
    }
    assert p == [STAR] + w;
    SuffixIsGlob(w, s);
  }

  lemma ClassifyPrefix(p: string, s: string)
    requires NoInnerStar(p) && |p| >= 1 && p[0] != STAR && p[|p| - 1] == STAR
    ensures Classify(p) == Prefix(p[..|p| - 1])
    ensures HasPrefix(p[..|p| - 1], s) <==> Glob(p, s)
  {
    var w := p[..|p| - 1];
    assert STAR !in w by {
      forall i | 0 <= i < |w| ensures w[i] != STAR { assert w[i] == p[i]; }
    }
    assert p == w + [STAR];
    PrefixIsGlob(w, s);
  }

  lemma ContainsIsGlob(source: seq<string>, s: string)
    requires forall i :: 0 <= i < |source| ==> NoInnerStar(source[i])
    ensures (exists i :: 0 <= i < |ClassifyAll(source)| && Matches(ClassifyAll(source)[i], s)) <==>
      (exists i :: 0 <= i < |source| && Glob(source[i], s))
  {
    forall i | 0 <= i < |source| ensures Matches(ClassifyAll(source)[i], s) <==> Glob(source[i], s) {
      ClassifyIsGlob(source[i], s);
    }
  }

  /** For patterns with '*' only at their ends, the set contains exactly
      the strings some source pattern matches as a wildcard pattern; after
      clear it contains nothing. */
  lemma ContainsIsWildcardMatch(ps: PatternSet, s: string)
    requires ps.Valid()
    requires forall i :: 0 <= i < |ps.source| ==> NoInnerStar(ps.source[i])
    ensures ps.Contains(s) <==> exists i :: 0 <= i < |ps.source| && Glob(ps.source[i], s)
    ensures ps.source == [] ==> !ps.Contains(s)
  {
    ContainsIsGlob(ps.source, s);
  }

  /** The test's mixed set: "foo", "foo*", "*foo", "*foo*" contain _foo_
      but not fo. */
  lemma MixedExample()
    ensures Matches(Classify("*foo*"), "_foo_")
    ensures !exists i :: 0 <= i < 4 && Matches(ClassifyAll(["foo", "foo*", "*foo", "*foo*"])[i], "fo")
  {
    assert HasPrefix("foo", "_foo_"[1..]);
  }
}
