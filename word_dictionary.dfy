/** The English word dictionary: lines of the form word@code are loaded
    into a map from word to part of speech, looked up without regard to
    ASCII case. */
module WordDictionary {
  import opened Util

  const PART_OF_SPEECH_SEPARATOR: char := '@'

  datatype PartOfSpeech =
    | NotInDictionary | UnknownPart | Noun | Plural | Verb | Adjective | Adverb
    | Conjunction | Preposition | Interjection | Pronoun | DefiniteArticle | IndefiniteArticle

  /** The Moby part-of-speech codes and what they mean here; any other
      code is an error, reported as NotInDictionary. */
  function PartOfSpeechFromCode(code: char): PartOfSpeech {
    match code
      case '?' => UnknownPart
      case 'N' => Noun
      case 'h' => Noun
      case 'o' => Noun
      case 'p' => Plural
      case 'V' => Verb
      case 't' => Verb
      case 'i' => Verb
      case 'A' => Adjective
      case 'v' => Adverb
      case 'C' => Conjunction
      case 'P' => Preposition
      case '!' => Interjection
      case 'r' => Pronoun
      case 'D' => DefiniteArticle
      case 'I' => IndefiniteArticle
      case _ => NotInDictionary
  }

  const KNOWN_CODES: string := "?NhopVtiAvCP!rDI"

  /** The code a part of speech is written with. */
  function CanonicalCode(p: PartOfSpeech): char {
    match p
      case NotInDictionary => '#'
      case UnknownPart => '?'
      case Noun => 'N'
      case Plural => 'p'
      case Verb => 'V'
      case Adjective => 'A'
      case Adverb => 'v'
      case Conjunction => 'C'
      case Preposition => 'P'
      case Interjection => '!'
      case Pronoun => 'r'
      case DefiniteArticle => 'D'
      case IndefiniteArticle => 'I'
  }

  /** A code is known iff it is one of the sixteen listed; every part of
      speech but NotInDictionary has a code that reads back as itself. */
  lemma KnownCodes(code: char)
    ensures PartOfSpeechFromCode(code) != NotInDictionary <==> code in KNOWN_CODES
  {
  }

  lemma SynonymCodes(code: char)
    ensures PartOfSpeechFromCode(code) == Noun <==> code == 'N' || code == 'h' || code == 'o'
    ensures PartOfSpeechFromCode(code) == Verb <==> code == 'V' || code == 't' || code == 'i'
  {
  }

  lemma CanonicalCodeRoundTrip(p: PartOfSpeech)
    ensures p != NotInDictionary ==> PartOfSpeechFromCode(CanonicalCode(p)) == p
    ensures PartOfSpeechFromCode(CanonicalCode(p)) != NotInDictionary ==> p != NotInDictionary
  {
  }

  // ---------------------------------------------------------------------
  // One line of the dictionary file.

  predicate IsSpace(c: char) {
    c == ' ' || c == '\t' || c == '\n' || c == '\r' || c == 11 as char || c == 12 as char
  }

  /** Every character is white space. */
  predicate AllSpace(t: string) {
    |t| == 0 || (IsSpace(t[0]) && AllSpace(t[1..]))
  }

  lemma {:induction false} AllSpaceSnoc(t: string, c: char)
    requires AllSpace(t) && IsSpace(c)
    ensures AllSpace(t + [c])
  {
    if |t| > 0 {
      assert (t + [c])[1..] == t[1..] + [c];
      AllSpaceSnoc(t[1..], c);
    }
  }

  /** The string less its leading white space. */
  function TrimLeft(s: string): (r: string)
    ensures |r| <= |s| && (|r| > 0 ==> !IsSpace(r[0]))
  {
    if |s| > 0 && IsSpace(s[0]) then TrimLeft(s[1..]) else s
  }

  /** The string less its trailing white space. */
  function TrimRight(s: string): (r: string)
    ensures |r| <= |s| && (|r| > 0 ==> !IsSpace(r[|r| - 1]))
    ensures |r| > 0 ==> |s| > 0 && r[0] == s[0]
  {
    if |s| > 0 && IsSpace(s[|s| - 1]) then TrimRight(s[..|s| - 1]) else s
  }

  /** TrimLeft keeps a suffix and drops only white space before it. */
  lemma {:induction false} TrimLeftSuffix(s: string)
    ensures var r := TrimLeft(s);
            r == s[|s| - |r|..] && AllSpace(s[..|s| - |r|])
  {
    if |s| > 0 && IsSpace(s[0]) {
      TrimLeftSuffix(s[1..]);
      var r := TrimLeft(s[1..]);
      assert s[..|s| - |r|][1..] == s[1..][..|s| - 1 - |r|];
    }
  }

  /** TrimRight keeps a prefix and drops only white space after it. */
  lemma {:induction false} TrimRightPrefix(s: string)
    ensures var r := TrimRight(s);
            r == s[..|r|] && AllSpace(s[|r|..])
  {
    if |s| > 0 && IsSpace(s[|s| - 1]) {
      TrimRightPrefix(s[..|s| - 1]);
      var r := TrimRight(s[..|s| - 1]);
      assert s[|r|..] == s[..|s| - 1][|r|..] + [s[|s| - 1]];
      AllSpaceSnoc(s[..|s| - 1][|r|..], s[|s| - 1]);
    }
  }

  /** How many white-space characters the string starts with. */
  function LeadingSpace(s: string): (n: nat)
    ensures n <= |s| && AllSpace(s[..n]) && (n < |s| ==> !IsSpace(s[n]))
  {
    if |s| > 0 && IsSpace(s[0]) then
      var n := 1 + LeadingSpace(s[1..]);
      assert s[..n][1..] == s[1..][..n - 1];
      n
    else 0
  }

  /** trimWhitespace: no white space at either end; TrimIsSlice states
      which characters are kept. */
  function Trim(s: string): (r: string)
    ensures |r| > 0 ==> !IsSpace(r[0]) && !IsSpace(r[|r| - 1])
  {
    TrimRight(TrimLeft(s))
  }

  lemma {:induction false} TrimLeftDrops(s: string)
    ensures |TrimLeft(s)| + LeadingSpace(s) == |s|
  {
    if |s| > 0 && IsSpace(s[0]) {
      TrimLeftDrops(s[1..]);
    }
  }

  /** Trim keeps exactly the slice of s after its leading white space and
      before its trailing white space: what it drops is white space, and
      what it keeps starts and ends with a non-white-space character. */
  lemma TrimIsSlice(s: string)
    ensures var r := Trim(s);
            LeadingSpace(s) + |r| <= |s| && r == s[LeadingSpace(s)..LeadingSpace(s) + |r|]
            && AllSpace(s[..LeadingSpace(s)]) && AllSpace(s[LeadingSpace(s) + |r|..])
            && (|r| > 0 ==> !IsSpace(r[0]) && !IsSpace(r[|r| - 1]))
  {
    var t := TrimLeft(s);
    var r := TrimRight(t);
    TrimLeftSuffix(s);
    TrimRightPrefix(t);
    TrimLeftDrops(s);
    var i := LeadingSpace(s);
    assert t == s[i..];
    assert t[|r|..] == s[i + |r|..];
  }

  function FindChar(s: string, c: char): (r: Option<nat>)
    ensures r.Some? ==> r.value < |s| && s[r.value] == c && forall i :: 0 <= i < r.value ==> s[i] != c
    ensures r.None? ==> forall i :: 0 <= i < |s| ==> s[i] != c
  {
    if |s| == 0 then None
    else if s[0] == c then Some(0)
    else
      var rest := FindChar(s[1..], c);
      if rest.None? then None else Some(rest.value + 1)
  }

  datatype Entry = Entry(word: string, part: PartOfSpeech)

  /** The per-line parse: skipped (None) or the word before the first
      separator with the part of speech of the code right after it. */
  function ParseLine(line: string): Option<Entry> {
    var w := Trim(line);
    if |w| == 0 then None
    else
      var sepPos := FindChar(w, PART_OF_SPEECH_SEPARATOR);
      if sepPos.None? then None
      else if sepPos.value == 0 then None
      else if sepPos.value + 1 >= |w| then None
      else
        var part := PartOfSpeechFromCode(w[sepPos.value + 1]);
        if part == NotInDictionary then None
        else Some(Entry(w[..sepPos.value], part))
  }

  /** A line is skipped iff, once trimmed, it is empty, has no separator,
      has its first separator at the start or at the end, or has an
      unknown code after it; otherwise the word is what precedes the first
      separator. */
  lemma ParseLineCases(line: string)
    ensures var w := Trim(line);
      ParseLine(line).None? <==>
        (|w| == 0 || PART_OF_SPEECH_SEPARATOR !in w || w[0] == PART_OF_SPEECH_SEPARATOR ||
         FindChar(w, PART_OF_SPEECH_SEPARATOR).value == |w| - 1 ||
         PartOfSpeechFromCode(w[FindChar(w, PART_OF_SPEECH_SEPARATOR).value + 1]) == NotInDictionary)
    ensures var w := Trim(line);
      ParseLine(line).Some? ==>
        var e := ParseLine(line).value;
        0 < |e.word| < |w| - 1 && w[|e.word|] == PART_OF_SPEECH_SEPARATOR &&
        e.word == w[..|e.word|] && PART_OF_SPEECH_SEPARATOR !in e.word &&
        e.part == PartOfSpeechFromCode(w[|e.word| + 1]) && e.part != NotInDictionary
  {
    var w := Trim(line);
    var sepPos := FindChar(w, PART_OF_SPEECH_SEPARATOR);
    if |w| > 0 && sepPos.Some? {
      var k := sepPos.value;
      if w[0] == PART_OF_SPEECH_SEPARATOR {
        assert k == 0;
      }
    } else if |w| > 0 {
      assert PART_OF_SPEECH_SEPARATOR !in w;
    }
  }

  // ---------------------------------------------------------------------
  // The loaded dictionary.

  /** The words of the lines loaded in order, keyed by their lower-case
      form: the map's hash and equality ignore case. */
  function LoadAll(lines: seq<string>): map<string, PartOfSpeech> {
    if lines == [] then map[]
    else
      var m := LoadAll(lines[..|lines| - 1]);
      var e := ParseLine(lines[|lines| - 1]);
      if e.None? then m else m[ToLower(e.value.word) := e.value.part]
  }

  ghost predicate NoUnknownStored(m: map<string, PartOfSpeech>) {
    forall k :: k in m ==> m[k] != NotInDictionary
  }

  lemma {:induction false} LoadAllStoresParts(lines: seq<string>)
    ensures NoUnknownStored(LoadAll(lines))
  {
    if lines != [] {
      LoadAllStoresParts(lines[..|lines| - 1]);
    }
  }

  /** Line i defines s (ignoring case). */
  predicate Defines(lines: seq<string>, i: int, s: string) {
    0 <= i < |lines| && ParseLine(lines[i]).Some? && ToLower(ParseLine(lines[i]).value.word) == ToLower(s)
  }

  /** Line i is the last line defining s. */
  predicate LastDefinition(lines: seq<string>, i: int, s: string) {
    Defines(lines, i, s) && forall j :: i < j < |lines| ==> !Defines(lines, j, s)
  }

  /** A word is present iff some line defines it (ignoring case). */
  lemma {:induction false} LoadAllPresent(lines: seq<string>, s: string)
    ensures ToLower(s) in LoadAll(lines) <==> exists i :: Defines(lines, i, s)
  {
    if lines != [] {
      var init := lines[..|lines| - 1];
      var n := |lines| - 1;
      LoadAllPresent(init, s);
      forall i | 0 <= i < n ensures Defines(lines, i, s) == Defines(init, i, s) {
        assert lines[i] == init[i];
      }
      var e := ParseLine(lines[n]);
      assert LoadAll(lines) == if e.None? then LoadAll(init) else LoadAll(init)[ToLower(e.value.word) := e.value.part];
      if Defines(lines, n, s) {
        assert ToLower(s) in LoadAll(lines);
      } else {
        assert ToLower(s) in LoadAll(lines) <==> ToLower(s) in LoadAll(init);
        if ToLower(s) in LoadAll(lines) {
          var i :| Defines(init, i, s);
          assert Defines(lines, i, s);
        }
      }
    }
  }

  /** A later line for the same word overwrites an earlier one: the part
      of speech is the one the last defining line gives. */
  lemma {:induction false} LoadAllLastWins(lines: seq<string>, s: string, i: int)
    requires LastDefinition(lines, i, s)
    ensures ToLower(s) in LoadAll(lines) && LoadAll(lines)[ToLower(s)] == ParseLine(lines[i]).value.part
  {
    var init := lines[..|lines| - 1];
    var n := |lines| - 1;
    if i < n {
      assert lines[i] == init[i];
      forall j | i < j < |init| ensures !Defines(init, j, s) {
        assert lines[j] == init[j];
        assert !Defines(lines, j, s);
      }
      assert LastDefinition(init, i, s);
      LoadAllLastWins(init, s, i);
      assert !Defines(lines, n, s);
    }
  }

  class Dictionary {
    var words: map<string, PartOfSpeech>

    ghost predicate Valid()
      reads this
    {
      NoUnknownStored(words)
    }

    /** The constructor's loop over the file's lines. */
    constructor (lines: seq<string>)
      ensures words == LoadAll(lines) && Valid()
    {
      var m: map<string, PartOfSpeech> := map[];
      for i := 0 to |lines|
        invariant m == LoadAll(lines[..i])
      {
        assert lines[..i + 1][..i] == lines[..i];
        var e := ParseLine(lines[i]);
        if e.Some? {
          m := m[ToLower(e.value.word) := e.value.part];
        }
      }
      assert lines[..|lines|] == lines;
      words := m;
      LoadAllStoresParts(lines);
    }

    function IsInDictionary(s: string): bool
      reads this
    {
      ToLower(s) in words
    }

    function PartOf(s: string): (r: PartOfSpeech)
      reads this
      ensures Valid() ==> (r != NotInDictionary <==> IsInDictionary(s))
    {
      if ToLower(s) in words then words[ToLower(s)] else NotInDictionary
    }
  }

  // ---------------------------------------------------------------------
  // The map's hash and equality.

  const TWO_64: int := 0x1_0000_0000_0000_0000

  /** One step of the hash on a lowered character code, in 64 bits. */
  function HashStep(h: nat, x: int): nat {
    (h * 17 + x) % TWO_64
  }

  /** CStrHashIgnoreCase: hash := hash * 17 + tolower(c), in 64 bits. */
  function HashOf(s: string): (r: nat)
    ensures r < TWO_64
  {
    if s == [] then 0
    else HashStep(HashOf(s[..|s| - 1]), ToLowerChar(s[|s| - 1]) as int)
  }

  method HashIgnoreCase(s: string) returns (hash: nat)
    ensures hash == HashOf(s)
  {
    hash := 0;
    for i := 0 to |s|
      invariant hash == HashOf(s[..i])
    {
      assert s[..i + 1][..i] == s[..i];
      // The multiply and the add each wrap in 64 bits; one reduction
      // after both gives the same value.
      hash := (hash * 17 + ToLowerChar(s[i]) as int) % TWO_64;
    }
    assert s[..|s|] == s;
  }

  /** CStrEqualIgnoreCase: same length and equal up to ASCII case. */
  function EqualIgnoreCase(a: string, b: string): bool {
    |a| == |b| && ToLower(a) == ToLower(b)
  }

  lemma {:induction false} HashOfLower(s: string)
    ensures HashOf(s) == HashOf(ToLower(s))
  {
    if s != [] {
      var n := |s| - 1;
      var t := ToLower(s);
      assert t[..n] == ToLower(s[..n]);
      HashOfLower(s[..n]);
      assert ToLowerChar(t[n]) == ToLowerChar(s[n]);
    }
  }

  /** Strings equal up to case hash alike, as the map requires. */
  lemma EqualIgnoreCaseHashesEqual(a: string, b: string)
    requires EqualIgnoreCase(a, b)
    ensures HashOf(a) == HashOf(b)
  {
    HashOfLower(a);
    HashOfLower(b);
  }

  /** EqualIgnoreCase is an equivalence relation. */
  lemma EqualIgnoreCaseEquivalence(a: string, b: string, c: string)
    ensures EqualIgnoreCase(a, a)
    ensures EqualIgnoreCase(a, b) ==> EqualIgnoreCase(b, a)
    ensures EqualIgnoreCase(a, b) && EqualIgnoreCase(b, c) ==> EqualIgnoreCase(a, c)
  {
  }
}
