/** Small shared vocabulary: an Option type, ASCII case mapping, the
    lexicographic order of std::string and sorted sequences of strings. */
module Util {

  datatype Option<+T> = None | Some(value: T)

  /** The set of elements of a sequence. */
  function Elems<T>(s: seq<T>): set<T> {
    set x | x in s
  }

  lemma ElemsConcat<T>(a: seq<T>, b: seq<T>)
    ensures Elems(a + b) == Elems(a) + Elems(b)
  {
    forall x | x in Elems(a) + Elems(b) ensures x in Elems(a + b) {
      if x in a {
        var i :| 0 <= i < |a| && a[i] == x;
        assert (a + b)[i] == x;
      } else {
        var i :| 0 <= i < |b| && b[i] == x;
        assert (a + b)[|a| + i] == x;
      }
    }
  }

  /** True iff no element occurs twice. */
  predicate Distinct<T(==)>(s: seq<T>) {
    forall i, j :: 0 <= i < j < |s| ==> s[i] != s[j]
  }

  // ---------------------------------------------------------------------
  // ASCII case mapping, as the C library's tolower/toupper in the "C" locale.

  function ToLowerChar(c: char): (r: char)
    ensures 'A' <= c <= 'Z' ==> r as int == c as int + 32
    ensures !('A' <= c <= 'Z') ==> r == c
  {
    if 'A' <= c <= 'Z' then (c as int + 32) as char else c
  }

  function ToLower(s: string): (r: string)
    ensures |r| == |s|
    ensures forall i :: 0 <= i < |s| ==> r[i] == ToLowerChar(s[i])
  {
    if |s| == 0 then [] else [ToLowerChar(s[0])] + ToLower(s[1..])
  }

  // ---------------------------------------------------------------------
  // The lexicographic order std::string's operator< imposes (character by
  // character, a proper prefix sorting first).

  predicate LexLess(a: string, b: string)
    decreases |a|
  {
    if |a| == 0 then |b| > 0
    else if |b| == 0 then false
    else if a[0] != b[0] then a[0] < b[0]
    else LexLess(a[1..], b[1..])
  }

  lemma {:induction false} LexLessIrreflexive(a: string)
    ensures !LexLess(a, a)
    decreases |a|
  {
    if |a| > 0 {
      LexLessIrreflexive(a[1..]);
    }
  }

  lemma {:induction false} LexLessTransitive(a: string, b: string, c: string)
    requires LexLess(a, b) && LexLess(b, c)
    ensures LexLess(a, c)
    decreases |a|
  {
    if |a| > 0 && a[0] == b[0] && b[0] == c[0] {
      LexLessTransitive(a[1..], b[1..], c[1..]);
    }
  }

  lemma {:induction false} LexLessTotal(a: string, b: string)
    requires a != b
    ensures LexLess(a, b) || LexLess(b, a)
    decreases |a|
  {
    if |a| > 0 && |b| > 0 && a[0] == b[0] {
      assert a == [a[0]] + a[1..] && b == [b[0]] + b[1..];
      LexLessTotal(a[1..], b[1..]);
    }
  }

  lemma LexLessAsymmetric(a: string, b: string)
    requires LexLess(a, b)
    ensures !LexLess(b, a)
  {
    if LexLess(b, a) {
      LexLessTransitive(a, b, a);
      LexLessIrreflexive(a);
    }
  }

  // ---------------------------------------------------------------------
  // Strictly sorted sequences of strings: what a sorted container of
  // distinct strings (a std::set, a boost flat_set, a sorted vector of a
  // set's elements) holds.

  ghost predicate StrictlySorted(s: seq<string>) {
    forall i, j :: 0 <= i < j < |s| ==> LexLess(s[i], s[j])
  }

  /** Inserting into a sorted container of distinct strings: a no-op when
      the string is already there, otherwise it goes into its place. */
  function InsertSorted(x: string, s: seq<string>): seq<string> {
    if |s| == 0 then [x]
    else if x == s[0] then s
    else if LexLess(x, s[0]) then [x] + s
    else [s[0]] + InsertSorted(x, s[1..])
  }

  lemma {:induction false} InsertSortedElems(x: string, s: seq<string>)
    ensures Elems(InsertSorted(x, s)) == Elems(s) + {x}
    ensures x !in s ==> |InsertSorted(x, s)| == |s| + 1
  {
    if |s| > 0 && x != s[0] && !LexLess(x, s[0]) {
      InsertSortedElems(x, s[1..]);
      ElemsConcat([s[0]], s[1..]);
      ElemsConcat([s[0]], InsertSorted(x, s[1..]));
      assert s == [s[0]] + s[1..];
    }
  }

  lemma {:induction false} InsertSortedSorted(x: string, s: seq<string>)
    requires StrictlySorted(s)
    ensures StrictlySorted(InsertSorted(x, s))
    ensures x in s ==> InsertSorted(x, s) == s
  {
    if |s| == 0 {
    } else if x == s[0] {
    } else if LexLess(x, s[0]) {
      forall j | 0 < j < |s| ensures LexLess(x, s[j]) {
        LexLessTransitive(x, s[0], s[j]);
      }
      LexLessIrreflexive(x);
      assert x !in s;
    } else {
      LexLessTotal(x, s[0]);
      InsertSortedSorted(x, s[1..]);
      InsertSortedElems(x, s[1..]);
      var tail := InsertSorted(x, s[1..]);
      forall j | 0 <= j < |tail| ensures LexLess(s[0], tail[j]) {
        assert tail[j] in Elems(tail);
        if tail[j] != x {
          var k :| 0 <= k < |s[1..]| && s[1..][k] == tail[j];
          assert s[k + 1] == tail[j];
        }
      }
    }
  }

  lemma InsertSortedCorrect(x: string, s: seq<string>)
    requires StrictlySorted(s)
    ensures StrictlySorted(InsertSorted(x, s))
    ensures Elems(InsertSorted(x, s)) == Elems(s) + {x}
    ensures |InsertSorted(x, s)| == if x in s then |s| else |s| + 1
    ensures x in s ==> InsertSorted(x, s) == s
  {
    InsertSortedElems(x, s);
    InsertSortedSorted(x, s);
  }

  /** The head of a strictly sorted sequence precedes every other element. */
  lemma HeadLeast(s: seq<string>, x: string)
    requires StrictlySorted(s) && |s| > 0 && x in s
    ensures x != s[0] ==> LexLess(s[0], x)
  {
  }

  /** The head of a strictly sorted sequence occurs in it only once. */
  lemma {:induction false} TailElems(s: seq<string>)
    requires StrictlySorted(s) && |s| > 0
    ensures Elems(s[1..]) == Elems(s) - {s[0]}
  {
    forall k | 0 <= k < |s| - 1 ensures s[1..][k] != s[0] {
      LexLessIrreflexive(s[0]);
      assert LexLess(s[0], s[k + 1]);
    }
    assert s == [s[0]] + s[1..];
  }

  lemma NotBothLess(x: string, y: string)
    ensures !(LexLess(x, y) && LexLess(y, x))
  {
    if LexLess(x, y) {
      LexLessAsymmetric(x, y);
    }
  }

  /** Two strictly sorted sequences with the same elements are equal. */
  lemma {:induction false} StrictlySortedUnique(a: seq<string>, b: seq<string>)
    requires StrictlySorted(a) && StrictlySorted(b) && Elems(a) == Elems(b)
    ensures a == b
    decreases |a|
  {
    assert |a| > 0 ==> a[0] in Elems(b);
    assert |b| > 0 ==> b[0] in Elems(a);
    if |a| > 0 && |b| > 0 {
      HeadLeast(b, a[0]);
      HeadLeast(a, b[0]);
      NotBothLess(a[0], b[0]);
      TailElems(a);
      TailElems(b);
      StrictlySortedUnique(a[1..], b[1..]);
      assert a == [a[0]] + a[1..] && b == [b[0]] + b[1..];
    }
  }

  /** Sorting a sequence of strings into a strictly sorted sequence of its
      distinct elements; on a sequence without duplicates this is what
      std::sort yields. */
  function SortStrings(s: seq<string>): seq<string> {
    if |s| == 0 then []
    else InsertSorted(s[|s| - 1], SortStrings(s[..|s| - 1]))
  }

  lemma {:induction false} SortStringsCorrect(s: seq<string>)
    ensures StrictlySorted(SortStrings(s)) && Elems(SortStrings(s)) == Elems(s)
    ensures Distinct(s) ==> |SortStrings(s)| == |s|
  {
    if |s| > 0 {
      var init := s[..|s| - 1];
      SortStringsCorrect(init);
      InsertSortedCorrect(s[|s| - 1], SortStrings(init));
      assert s == init + [s[|s| - 1]];
      if Distinct(s) {
        assert Distinct(init);
        assert s[|s| - 1] !in Elems(SortStrings(init));
      }
    }
  }

  lemma StrictlySortedIsDistinct(s: seq<string>)
    requires StrictlySorted(s)
    ensures Distinct(s)
  {
    forall i, j | 0 <= i < j < |s| ensures s[i] != s[j] {
      if s[i] == s[j] { LexLessIrreflexive(s[i]); }
    }
  }

  /** Regrouping a concatenation (a step the solver is slow to find in
      large contexts). */
  lemma Assoc<T>(a: seq<T>, b: seq<T>, c: seq<T>)
    ensures a + b + c == a + (b + c)
  {
  }

  lemma SnocSnoc<T>(a: seq<T>, x: T, y: T)
    ensures a + [x] + [y] == a + [x, y]
  {
  }
}
