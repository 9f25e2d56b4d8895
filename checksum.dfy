/** Checksums that are stable over persistence: a 64-bit seed is threaded
    through every part of a value, and unordered containers are sorted
    first so that their iteration order does not matter.  The hash
    primitives are parameters. */
module Checksum {
  import opened Util

  const TWO_64: int := 0x1_0000_0000_0000_0000
  type U64 = x: int | 0 <= x < TWO_64

  /** The primitives the checksums are built from: hashCombine,
      safeMurmurHash64, the standard hash of a vector of bools, and the
      checksum/hash member functions of the objects with an id. */
  datatype Hashing = Hashing(
    combine: (U64, U64) -> U64,
    murmur: (string, U64) -> U64,
    boolVector: seq<bool> -> U64,
    memberSeeded: (nat, U64) -> U64,
    memberUnseeded: nat -> U64,
    memberHash: nat -> U64)

  /** One value of each family of overloads.  Nullable stands for an
      optional and for raw, shared and unique pointers; an object with a
      checksum or hash member is known by an id.  Unordered containers
      are given in iteration order, with string elements and keys. */
  datatype Value =
    | Integral(i: int)
    | Str(s: string)
    | StoredString(p: Option<string>)
    | UniversalHash(a: U64, b: U64)
    | Nullable(target: Option<Value>)
    | Pair(first: Value, second: Value)
    | Dense(coefficients: seq<Value>)
    | Sparse(entries: seq<SparseEntry>)
    | Annotated(vector: Value, annotation: Value)
    | SeededMember(id: nat)
    | UnseededMember(id: nat)
    | HashMember(id: nat)
    | Container(elements: seq<Value>)
    | BoolVector(bits: seq<bool>)
    | UnorderedSet(members: seq<string>)
    | UnorderedMap(pairs: seq<MapEntry>)

  /** A stored entry of a sparse vector. */
  datatype SparseEntry = SparseEntry(index: int, value: Value)

  datatype MapEntry = MapEntry(key: string, value: Value)

  /** static_cast to a 64-bit unsigned integer. */
  function Wrap(i: int): U64 {
    i % TWO_64
  }

  function Keys(es: seq<MapEntry>): (r: seq<string>)
    ensures |r| == |es| && forall i :: 0 <= i < |es| ==> r[i] == es[i].key
  {
    seq(|es|, i requires 0 <= i < |es| => es[i].key)
  }

  function IndexOfKey(es: seq<MapEntry>, k: string): (j: nat)
    requires k in Keys(es)
    ensures j < |es| && es[j].key == k
    ensures forall i :: 0 <= i < j ==> es[i].key != k
  {
    if es[0].key == k then 0
    else
      assert k in Keys(es[1..]) by {
        var i :| 0 <= i < |es| && Keys(es)[i] == k;
        assert Keys(es[1..])[i - 1] == k;
      }
      1 + IndexOfKey(es[1..], k)
  }

  lemma SortedKeysPresent(es: seq<MapEntry>)
    ensures forall i :: 0 <= i < |SortStrings(Keys(es))| ==> SortStrings(Keys(es))[i] in Keys(es)
  {
    SortStringsCorrect(Keys(es));
    forall i | 0 <= i < |SortStrings(Keys(es))| ensures SortStrings(Keys(es))[i] in Keys(es) {
      assert SortStrings(Keys(es))[i] in Elems(SortStrings(Keys(es)));
    }
  }

  /** The checksum of v from seed. */
  function Check(h: Hashing, seed: U64, v: Value): U64
    decreases v, 0, 0
  {
    match v
      case Integral(i) => h.combine(seed, Wrap(i))
      case Str(s) => h.murmur(s, seed)
      case StoredString(p) => if p.None? then seed else h.murmur(p.value, seed)
      case UniversalHash(a, b) => h.combine(h.combine(seed, a), b)
      case Nullable(t) => if t.None? then seed else Check(h, seed, t.value)
      case Pair(x, y) => Check(h, Check(h, seed, x), y)
      case Dense(cs) => Fold(h, seed, cs)
      case Sparse(es) => SparseFold(h, seed, es)
      case Annotated(x, a) => Check(h, Check(h, seed, x), a)
      case SeededMember(id) => h.memberSeeded(id, seed)
      case UnseededMember(id) => h.combine(seed, h.memberUnseeded(id))
      case HashMember(id) => h.combine(seed, h.memberHash(id))
      case Container(es) => Fold(h, seed, es)
      case BoolVector(bits) => h.combine(seed, h.boolVector(bits))
      case UnorderedSet(ss) => StringsFold(h, seed, SortStrings(ss))
      case UnorderedMap(es) =>
        SortedKeysPresent(es);
        MapFold(h, seed, es, SortStrings(Keys(es)))
  }

  /** The seed threaded through the elements in order. */
  function Fold(h: Hashing, seed: U64, vs: seq<Value>): U64
    decreases vs, 1, 0
  {
    if vs == [] then seed else Fold(h, Check(h, seed, vs[0]), vs[1..])
  }

  /** Each sparse entry chains its index, then its value. */
  function SparseFold(h: Hashing, seed: U64, es: seq<SparseEntry>): U64
    decreases es, 1, 0
  {
    if es == [] then seed
    else SparseFold(h, CheckEntry(h, seed, es[0]), es[1..])
  }

  function CheckEntry(h: Hashing, seed: U64, e: SparseEntry): U64
    decreases e, 0, 0
  {
    Check(h, h.combine(seed, Wrap(e.index)), e.value)
  }

  function StringsFold(h: Hashing, seed: U64, ss: seq<string>): U64
    decreases |ss|
  {
    if ss == [] then seed else StringsFold(h, h.murmur(ss[0], seed), ss[1..])
  }

  /** The map's entries in key order, each as the pair of its key and value. */
  function MapFold(h: Hashing, seed: U64, es: seq<MapEntry>, keys: seq<string>): U64
    requires forall i :: 0 <= i < |keys| ==> keys[i] in Keys(es)
    decreases es, 1, |keys|
  {
    if keys == [] then seed
    else
      var j := IndexOfKey(es, keys[0]);
      MapFold(h, Check(h, h.murmur(keys[0], seed), es[j].value), es, keys[1..])
  }

  // ---------------------------------------------------------------------
  // The dispatch, with the source's loops.

  method Dispatch(h: Hashing, seed: U64, v: Value) returns (r: U64)
    ensures r == Check(h, seed, v)
    decreases v, 0
  {
    match v {
      case Integral(i) => r := h.combine(seed, Wrap(i));
      case Str(s) => r := h.murmur(s, seed);
      case StoredString(p) => r := if p.None? then seed else h.murmur(p.value, seed);
      case UniversalHash(a, b) =>
        var s := h.combine(seed, a);
        r := h.combine(s, b);
      case Nullable(t) =>
        if t.None? {
          r := seed;
        } else {
          r := Dispatch(h, seed, t.value);
        }
      case Pair(x, y) =>
        var s := Dispatch(h, seed, x);
        r := Dispatch(h, s, y);
      case Dense(cs) => r := DispatchDense(h, seed, cs);
      case Sparse(es) => r := DispatchSparse(h, seed, es);
      case Annotated(x, a) =>
        var s := Dispatch(h, seed, x);
        r := Dispatch(h, s, a);
      case SeededMember(id) => r := h.memberSeeded(id, seed);
      case UnseededMember(id) => r := h.combine(seed, h.memberUnseeded(id));
      case HashMember(id) => r := h.combine(seed, h.memberHash(id));
      case Container(es) => r := DispatchContainer(h, seed, es);
      case BoolVector(bits) => r := h.combine(seed, h.boolVector(bits));
      case UnorderedSet(ss) => r := DispatchUnorderedSet(h, seed, ss);
      case UnorderedMap(es) => r := DispatchUnorderedMap(h, seed, es);
    }
  }

  /** An Eigen dense vector: all coefficients but the last, then the last. */
  method DispatchDense(h: Hashing, seed: U64, cs: seq<Value>) returns (r: U64)
    ensures r == Fold(h, seed, cs)
    decreases cs, 1
  {
    if |cs| == 0 {
      return seed;
    }
    var s := seed;
    var i := 0;
    while i + 1 < |cs|
      invariant 0 <= i < |cs|
      invariant Fold(h, s, cs[i..]) == Fold(h, seed, cs)
    {
      assert cs[i..][1..] == cs[i + 1..];
      s := Dispatch(h, s, cs[i]);
      i := i + 1;
    }
    assert cs[i..] == [cs[i]];
    r := Dispatch(h, s, cs[i]);
    assert Fold(h, r, cs[i..][1..]) == r;
  }

  /** An Eigen sparse vector, chaining the running result. */
  method DispatchSparse(h: Hashing, seed: U64, es: seq<SparseEntry>) returns (r: U64)
    ensures r == SparseFold(h, seed, es)
    decreases es, 1
  {
    r := seed;
    for i := 0 to |es|
      invariant SparseFold(h, r, es[i..]) == SparseFold(h, seed, es)
    {
      assert es[i..][1..] == es[i + 1..];
      r := DispatchEntry(h, r, es[i]);
    }
  }

  method DispatchEntry(h: Hashing, seed: U64, e: SparseEntry) returns (r: U64)
    ensures r == CheckEntry(h, seed, e)
    decreases e, 0
  {
    r := h.combine(seed, Wrap(e.index));
    r := Dispatch(h, r, e.value);
  }

  /** An ordered container: its elements in iteration order. */
  method DispatchContainer(h: Hashing, seed: U64, es: seq<Value>) returns (r: U64)
    ensures r == Fold(h, seed, es)
    decreases es, 1
  {
    r := seed;
    for i := 0 to |es|
      invariant Fold(h, r, es[i..]) == Fold(h, seed, es)
    {
      assert es[i..][1..] == es[i + 1..];
      r := Dispatch(h, r, es[i]);
    }
  }

  /** An unordered set: its elements sorted, then chained. */
  method DispatchUnorderedSet(h: Hashing, seed: U64, ss: seq<string>) returns (r: U64)
    ensures r == StringsFold(h, seed, SortStrings(ss))
  {
    var ordered := SortStrings(ss);
    r := seed;
    for i := 0 to |ordered|
      invariant StringsFold(h, r, ordered[i..]) == StringsFold(h, seed, ordered)
    {
      assert ordered[i..][1..] == ordered[i + 1..];
      r := h.murmur(ordered[i], r);
    }
  }

  /** An unordered map: its entries sorted by key, each chained as the
      pair of key and value. */
  method DispatchUnorderedMap(h: Hashing, seed: U64, es: seq<MapEntry>) returns (r: U64)
    ensures r == Check(h, seed, UnorderedMap(es))
    decreases es, 1
  {
    SortedKeysPresent(es);
    var ordered := SortStrings(Keys(es));
    r := seed;
    for i := 0 to |ordered|
      invariant MapFold(h, r, es, ordered[i..]) == MapFold(h, seed, es, ordered)
    {
      assert ordered[i..][1..] == ordered[i + 1..];
      var j := IndexOfKey(es, ordered[i]);
      r := h.murmur(ordered[i], r);
      r := Dispatch(h, r, es[j].value);
    }
  }

  /** calculate on a C array, which always has at least one element. */
  method CalculateArray(h: Hashing, seed: U64, target: seq<Value>) returns (r: U64)
    requires |target| >= 1
    ensures r == Fold(h, seed, target)
  {
    var s := seed;
    var i := 0;
    while i + 1 < |target|
      invariant 0 <= i < |target|
      invariant Fold(h, s, target[i..]) == Fold(h, seed, target)
    {
      assert target[i..][1..] == target[i + 1..];
      s := Dispatch(h, s, target[i]);
      i := i + 1;
    }
    assert target[i..] == [target[i]];
    r := Dispatch(h, s, target[i]);
    assert Fold(h, r, target[i..][1..]) == r;
  }

  function Flatten(rows: seq<seq<Value>>): seq<Value> {
    if rows == [] then [] else rows[0] + Flatten(rows[1..])
  }

  /** calculate on a two-dimensional C array: chained through every row. */
  method CalculateNested(h: Hashing, seed: U64, target: seq<seq<Value>>) returns (r: U64)
    requires |target| >= 1 && forall i :: 0 <= i < |target| ==> |target[i]| >= 1
    ensures r == Fold(h, seed, Flatten(target))
  {
    var s := seed;
    var i := 0;
    while i + 1 < |target|
      invariant 0 <= i < |target|
      invariant Fold(h, s, Flatten(target[i..])) == Fold(h, seed, Flatten(target))
    {
      assert target[i..][1..] == target[i + 1..];
      FoldConcat(h, s, target[i], Flatten(target[i + 1..]));
      s := CalculateArray(h, s, target[i]);
      i := i + 1;
    }
    assert target[i..] == [target[i]];
    assert Flatten(target[i..]) == target[i] by {
      assert Flatten(target[i..][1..]) == [];
    }
    r := CalculateArray(h, s, target[i]);
  }

  // ---------------------------------------------------------------------
  // Properties.

  /** Checksumming a concatenation chains the two halves. */
  lemma {:induction false} FoldConcat(h: Hashing, seed: U64, a: seq<Value>, b: seq<Value>)
    ensures Fold(h, seed, a + b) == Fold(h, Fold(h, seed, a), b)
    decreases |a|
  {
    if a != [] {
      assert (a + b)[1..] == a[1..] + b;
      FoldConcat(h, Check(h, seed, a[0]), a[1..], b);
    } else {
      assert a + b == b;
    }
  }

  /** The last element of a container: its checksum is that element's
      checksum from the checksum of the rest. */
  lemma ContainerSnoc(h: Hashing, seed: U64, es: seq<Value>, x: Value)
    ensures Check(h, seed, Container(es + [x])) == Check(h, Check(h, seed, Container(es)), x)
  {
    FoldConcat(h, seed, es, [x]);
    assert [x][1..] == [];
  }

  /** Two iteration orders of the same unordered set give one checksum. */
  lemma UnorderedSetOrderIndependent(h: Hashing, seed: U64, a: seq<string>, b: seq<string>)
    requires Elems(a) == Elems(b)
    ensures Check(h, seed, UnorderedSet(a)) == Check(h, seed, UnorderedSet(b))
  {
    SortStringsCorrect(a);
    SortStringsCorrect(b);
    StrictlySortedUnique(SortStrings(a), SortStrings(b));
  }

  predicate DistinctKeys(es: seq<MapEntry>) {
    forall i, j :: 0 <= i < j < |es| ==> es[i].key != es[j].key
  }

  lemma {:induction false} MapFoldSameLookups(h: Hashing, seed: U64, a: seq<MapEntry>, b: seq<MapEntry>, keys: seq<string>)
    requires forall i :: 0 <= i < |keys| ==> keys[i] in Keys(a) && keys[i] in Keys(b)
    requires forall i :: 0 <= i < |keys| ==> a[IndexOfKey(a, keys[i])].value == b[IndexOfKey(b, keys[i])].value
    ensures MapFold(h, seed, a, keys) == MapFold(h, seed, b, keys)
    decreases |keys|
  {
    if keys != [] {
      var s := Check(h, h.murmur(keys[0], seed), a[IndexOfKey(a, keys[0])].value);
      MapFoldSameLookups(h, s, a, b, keys[1..]);
    }
  }

  /** Same entries: same keys. */
  lemma SameKeys(a: seq<MapEntry>, b: seq<MapEntry>)
    requires Elems(a) == Elems(b)
    ensures Elems(Keys(a)) == Elems(Keys(b))
  {
    forall k | k in Elems(Keys(a)) ensures k in Elems(Keys(b)) {
      var i :| 0 <= i < |a| && Keys(a)[i] == k;
      assert a[i] in Elems(b);
      var j :| 0 <= j < |b| && b[j] == a[i];
      assert Keys(b)[j] == k;
    }
    forall k | k in Elems(Keys(b)) ensures k in Elems(Keys(a)) {
      var j :| 0 <= j < |b| && Keys(b)[j] == k;
      assert b[j] in Elems(a);
      var i :| 0 <= i < |a| && a[i] == b[j];
      assert Keys(a)[i] == k;
    }
  }

  /** Same entries and distinct keys: every key has the same value. */
  lemma SameLookup(a: seq<MapEntry>, b: seq<MapEntry>, k: string)
    requires DistinctKeys(b) && Elems(a) == Elems(b) && k in Keys(a) && k in Keys(b)
    ensures a[IndexOfKey(a, k)].value == b[IndexOfKey(b, k)].value
  {
    var i := IndexOfKey(a, k);
    assert a[i] in Elems(b);
    var j :| 0 <= j < |b| && b[j] == a[i];
    assert j == IndexOfKey(b, k);
  }

  /** Two iteration orders of the same unordered map give one checksum. */
  lemma UnorderedMapOrderIndependent(h: Hashing, seed: U64, a: seq<MapEntry>, b: seq<MapEntry>)
    requires DistinctKeys(a) && DistinctKeys(b) && Elems(a) == Elems(b)
    ensures Check(h, seed, UnorderedMap(a)) == Check(h, seed, UnorderedMap(b))
  {
    var ka := SortStrings(Keys(a));
    SameSortedKeys(a, b);
    SortedKeysPresent(a);
    SortedKeysPresent(b);
    SameLookups(a, b, ka);
    MapFoldSameLookups(h, seed, a, b, ka);
  }

  lemma SameSortedKeys(a: seq<MapEntry>, b: seq<MapEntry>)
    requires Elems(a) == Elems(b)
    ensures SortStrings(Keys(a)) == SortStrings(Keys(b))
  {
    SameKeys(a, b);
    SortStringsCorrect(Keys(a));
    SortStringsCorrect(Keys(b));
    StrictlySortedUnique(SortStrings(Keys(a)), SortStrings(Keys(b)));
  }

  lemma SameLookups(a: seq<MapEntry>, b: seq<MapEntry>, keys: seq<string>)
    requires DistinctKeys(b) && Elems(a) == Elems(b)
    requires forall n :: 0 <= n < |keys| ==> keys[n] in Keys(a) && keys[n] in Keys(b)
    ensures forall n :: 0 <= n < |keys| ==> a[IndexOfKey(a, keys[n])].value == b[IndexOfKey(b, keys[n])].value
  {
    forall n | 0 <= n < |keys| ensures a[IndexOfKey(a, keys[n])].value == b[IndexOfKey(b, keys[n])].value {
      SameLookup(a, b, keys[n]);
    }
  }

  /** A sparse vector chains every entry, as the pairs of index and value
      would be chained in a container. */
  function SparsePairs(es: seq<SparseEntry>): (r: seq<Value>)
    ensures |r| == |es| && forall i :: 0 <= i < |es| ==> r[i] == Pair(Integral(es[i].index), es[i].value)
  {
    seq(|es|, i requires 0 <= i < |es| => Pair(Integral(es[i].index), es[i].value))
  }

  lemma {:induction false} SparseChainsAllEntries(h: Hashing, seed: U64, es: seq<SparseEntry>)
    ensures Check(h, seed, Sparse(es)) == Check(h, seed, Container(SparsePairs(es)))
    decreases |es|
  {
    if es != [] {
      var ps := SparsePairs(es);
      assert ps[1..] == SparsePairs(es[1..]);
      assert Check(h, seed, ps[0]) == Check(h, h.combine(seed, Wrap(es[0].index)), es[0].value);
      assert Fold(h, seed, ps) == Fold(h, Check(h, seed, ps[0]), ps[1..]);
      assert SparseFold(h, seed, es) == SparseFold(h, CheckEntry(h, seed, es[0]), es[1..]);
      SparseChainsAllEntries(h, Check(h, h.combine(seed, Wrap(es[0].index)), es[0].value), es[1..]);
    }
  }

  // ---------------------------------------------------------------------
  // The sparse-vector overload as written: each entry restarts from the
  // original seed instead of the running result.

  function SparseAsWritten(h: Hashing, seed: U64, result: U64, es: seq<SparseEntry>): U64
    decreases |es|
  {
    if es == [] then result
    else SparseAsWritten(h, seed, Check(h, h.combine(seed, Wrap(es[0].index)), es[0].value), es[1..])
  }

  /** As written, only the last stored entry reaches the checksum. */
  lemma {:induction false} SparseAsWrittenLastOnly(h: Hashing, seed: U64, result: U64, es: seq<SparseEntry>)
    requires |es| >= 1
    ensures SparseAsWritten(h, seed, result, es) ==
      Check(h, h.combine(seed, Wrap(es[|es| - 1].index)), es[|es| - 1].value)
    decreases |es|
  {
    if |es| > 1 {
      SparseAsWrittenLastOnly(h, seed, Check(h, h.combine(seed, Wrap(es[0].index)), es[0].value), es[1..]);
    }
  }

  /** The vectors {0: x, 1: z} and {0: y, 1: z} get the same checksum as
      written, whatever the primitives, while the chained overload
      threads x and y through the seed of the second entry. */
  lemma SparseAsWrittenCollides(h: Hashing, seed: U64, x: Value, y: Value, z: Value)
    ensures SparseAsWritten(h, seed, seed, [SparseEntry(0, x), SparseEntry(1, z)]) == SparseAsWritten(h, seed, seed, [SparseEntry(0, y), SparseEntry(1, z)])
    ensures Check(h, seed, Sparse([SparseEntry(0, x), SparseEntry(1, z)])) ==
      Check(h, h.combine(Check(h, h.combine(seed, Wrap(0)), x), Wrap(1)), z)
  {
    SparseAsWrittenLastOnly(h, seed, seed, [SparseEntry(0, x), SparseEntry(1, z)]);
    SparseAsWrittenLastOnly(h, seed, seed, [SparseEntry(0, y), SparseEntry(1, z)]);
    var es := [SparseEntry(0, x), SparseEntry(1, z)];
    assert es[1..] == [SparseEntry(1, z)] && es[1..][1..] == [];
    var s1 := Check(h, h.combine(seed, Wrap(0)), x);
    assert SparseFold(h, seed, es) == SparseFold(h, s1, es[1..]);
    assert SparseFold(h, s1, es[1..]) == SparseFold(h, Check(h, h.combine(s1, Wrap(1)), z), []);
  }
}
