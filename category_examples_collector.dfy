/** Up to a fixed number of distinct examples per category, each
    category's examples kept as a sorted set. */
module CategoryExamplesCollector {
  import opened Util

  /** The flat-set insert guarded by the limit: whether the example goes
      in, and the set afterwards. */
  function AddTo(examples: seq<string>, example: string, maxExamples: nat): (r: (bool, seq<string>))
    requires StrictlySorted(examples)
    ensures r.0 <==> example !in examples && |examples| < maxExamples
    ensures StrictlySorted(r.1)
    ensures Elems(r.1) == if r.0 then Elems(examples) + {example} else Elems(examples)
    ensures |r.1| == |examples| + (if r.0 then 1 else 0)
    ensures !r.0 ==> r.1 == examples
  {
    if example in examples || |examples| >= maxExamples then (false, examples)
    else
      InsertSortedCorrect(example, examples);
      (true, InsertSorted(example, examples))
  }

  class Collector {
    const maxExamples: nat
    var examplesByCategory: map<int, seq<string>>

    /** Every stored set is sorted, free of repeats and within the limit. */
    ghost predicate Valid()
      reads this
    {
      forall c :: c in examplesByCategory ==>
        StrictlySorted(examplesByCategory[c]) && |examplesByCategory[c]| <= maxExamples
    }

    constructor (maxExamples: nat)
      ensures this.maxExamples == maxExamples && examplesByCategory == map[] && Valid()
    {
      this.maxExamples := maxExamples;
      examplesByCategory := map[];
    }

    /** A category never added to has no examples. */
    function Examples(categoryId: int): (r: seq<string>)
      reads this
      requires Valid()
      ensures StrictlySorted(r) && |r| <= maxExamples
    {
      if categoryId in examplesByCategory then examplesByCategory[categoryId] else []
    }

    function NumberOfExamplesForCategory(categoryId: int): (n: nat)
      reads this
      requires Valid()
      ensures n == |Examples(categoryId)| && n <= maxExamples
    {
      if categoryId in examplesByCategory then |examplesByCategory[categoryId]| else 0
    }

    /** Adds a new distinct example while the category has room; reports
        whether it did. Other categories are untouched. */
    method Add(categoryId: int, example: string) returns (added: bool)
      requires Valid()
      modifies this
      ensures Valid()
      ensures (added, Examples(categoryId)) == AddTo(old(Examples(categoryId)), example, maxExamples)
      ensures forall c :: c != categoryId ==> Examples(c) == old(Examples(c))
      ensures !added ==> examplesByCategory == old(examplesByCategory)
    {
      var current := if categoryId in examplesByCategory then examplesByCategory[categoryId] else [];
      if example in current || |current| >= maxExamples {
        return false;
      }
      InsertSortedCorrect(example, current);
      examplesByCategory := examplesByCategory[categoryId := InsertSorted(example, current)];
      added := true;
    }

    method Clear()
      modifies this
      ensures examplesByCategory == map[] && Valid()
    {
      examplesByCategory := map[];
    }
  }

  /** Adding examples one after another: the set holds the first
      maxExamples distinct ones, in sorted order. */
  function AddAll(examples: seq<string>, adds: seq<string>, maxExamples: nat): (r: seq<string>)
    requires StrictlySorted(examples)
    ensures StrictlySorted(r) && Elems(examples) <= Elems(r)
    ensures |examples| <= maxExamples ==> |r| <= maxExamples
    decreases |adds|
  {
    if adds == [] then examples
    else AddAll(AddTo(examples, adds[0], maxExamples).1, adds[1..], maxExamples)
  }

  /** Every example offered is kept, or the set was full when it came, and
      nothing but what was offered is ever stored. */
  lemma {:induction false} AddAllKeeps(examples: seq<string>, adds: seq<string>, maxExamples: nat)
    requires StrictlySorted(examples)
    ensures Elems(AddAll(examples, adds, maxExamples)) <= Elems(examples) + Elems(adds)
    ensures |AddAll(examples, adds, maxExamples)| < maxExamples ==>
      Elems(examples) + Elems(adds) <= Elems(AddAll(examples, adds, maxExamples))
    decreases |adds|
  {
    if adds != [] {
      var next := AddTo(examples, adds[0], maxExamples).1;
      AddAllKeeps(next, adds[1..], maxExamples);
      ElemsConcat([adds[0]], adds[1..]);
      assert adds == [adds[0]] + adds[1..];
      if |AddAll(examples, adds, maxExamples)| < maxExamples {
        AddAllGrows(next, adds[1..], maxExamples);
      }
    }
  }

  lemma {:induction false} AddAllGrows(examples: seq<string>, adds: seq<string>, maxExamples: nat)
    requires StrictlySorted(examples)
    ensures |examples| <= |AddAll(examples, adds, maxExamples)|
    decreases |adds|
  {
    if adds != [] {
      AddAllGrows(AddTo(examples, adds[0], maxExamples).1, adds[1..], maxExamples);
    }
  }
}
