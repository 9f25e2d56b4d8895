/** Restoring and persisting a time-series decomposition by tag dispatch:
    the sibling under the cursor names the variant ("a" the full
    decomposition, "b" the stub), and exactly one sibling must be there. */
module DecompositionSerialiser {
  import opened Util
  import opened PersistenceTag

  const TIME_SERIES_DECOMPOSITION_TAG := Tag("a", "time_series_decomposition")
  const TIME_SERIES_DECOMPOSITION_STUB_TAG := Tag("b", "time_series_decomposition_stub")

  /** What a restored result can hold; Other is a subclass with no tag.
      The full decomposition's own state is not part of this model. */
  datatype Decomposition = Full | Stub | Other

  predicate Known(name: string) {
    Matches(name, TIME_SERIES_DECOMPOSITION_TAG) || Matches(name, TIME_SERIES_DECOMPOSITION_STUB_TAG)
  }

  function VariantOf(name: string): Decomposition {
    if Matches(name, TIME_SERIES_DECOMPOSITION_TAG) then Full else Stub
  }

  /** A restore traverser positioned at one of a run of siblings. */
  class Traverser {
    var names: seq<string>
    var pos: nat

    ghost predicate Valid()
      reads this
    {
      pos < |names|
    }

    constructor (siblings: seq<string>)
      requires |siblings| > 0
      ensures names == siblings && pos == 0 && Valid()
    {
      names := siblings;
      pos := 0;
    }

    method Name() returns (n: string)
      requires Valid()
      ensures n == names[pos]
    {
      n := names[pos];
    }

    /** Moves to the next sibling if there is one. */
    method Next() returns (more: bool)
      requires Valid()
      modifies this
      ensures names == old(names) && Valid()
      ensures more <==> old(pos) + 1 < |names|
      ensures pos == if more then old(pos) + 1 else old(pos)
    {
      more := pos + 1 < |names|;
      if more {
        pos := pos + 1;
      }
    }
  }

  datatype Outcome = Outcome(ok: bool, ptr: Option<Decomposition>, at: nat)

  /** The restore loop from sibling i, with count recognised so far and
      the result as it stands: where it stops and what it leaves. */
  function RestoreFrom(names: seq<string>, i: nat, count: nat, ptr: Option<Decomposition>): Outcome
    requires i < |names|
    decreases |names| - i
  {
    if !Known(names[i]) then Outcome(false, ptr, i)
    else
      var ptr' := Some(VariantOf(names[i]));
      if i + 1 < |names| then RestoreFrom(names, i + 1, count + 1, ptr')
      else if count + 1 != 1 then Outcome(false, None, i)
      else Outcome(true, ptr', i)
  }

  /** restore: reads each sibling's name, restores the variant it names,
      fails at once on an unknown name and, after the last sibling, fails
      and resets the result unless exactly one was found. */
  method Restore(t: Traverser, ptr0: Option<Decomposition>) returns (ok: bool, ptr: Option<Decomposition>)
    requires t.Valid()
    modifies t
    ensures t.names == old(t.names) && t.Valid()
    ensures Outcome(ok, ptr, t.pos) == RestoreFrom(old(t.names), old(t.pos), 0, ptr0)
  {
    ghost var names := t.names;
    ghost var start := t.pos;
    var numResults: nat := 0;
    ptr := ptr0;
    while true
      invariant t.Valid() && t.names == names && start <= t.pos
      invariant RestoreFrom(names, start, 0, ptr0) == RestoreFrom(names, t.pos, numResults, ptr)
      decreases |names| - t.pos
    {
      var name := t.Name();
      if Matches(name, TIME_SERIES_DECOMPOSITION_TAG) {
        ptr := Some(Full);
        numResults := numResults + 1;
      } else if Matches(name, TIME_SERIES_DECOMPOSITION_STUB_TAG) {
        ptr := Some(Stub);
        numResults := numResults + 1;
      } else {
        return false, ptr;
      }
      var more := t.Next();
      if !more {
        break;
      }
    }
    if numResults != 1 {
      return false, None;
    }
    return true, ptr;
  }

  /** Every sibling from i recognised: the outcome depends only on how
      many were found in all. */
  lemma {:induction false} AllKnownOutcome(names: seq<string>, i: nat, count: nat, ptr: Option<Decomposition>)
    requires i < |names|
    requires forall j :: i <= j < |names| ==> Known(names[j])
    ensures RestoreFrom(names, i, count, ptr) ==
      if count + (|names| - i) == 1 then Outcome(true, Some(VariantOf(names[|names| - 1])), |names| - 1)
      else Outcome(false, None, |names| - 1)
    decreases |names| - i
  {
    if i + 1 < |names| {
      AllKnownOutcome(names, i + 1, count + 1, Some(VariantOf(names[i])));
    }
  }

  /** The first unknown sibling stops the loop there, leaving the result
      as the sibling before it set it. */
  lemma {:induction false} UnknownStops(names: seq<string>, i: nat, count: nat, ptr: Option<Decomposition>, j: nat)
    requires i <= j < |names|
    requires forall k :: i <= k < j ==> Known(names[k])
    requires !Known(names[j])
    ensures RestoreFrom(names, i, count, ptr) ==
      Outcome(false, if j > i then Some(VariantOf(names[j - 1])) else ptr, j)
    decreases j - i
  {
    if j > i {
      UnknownStops(names, i + 1, count + 1, Some(VariantOf(names[i])), j);
    }
  }

  /** Restore succeeds iff the cursor is on the last sibling and it names
      a variant; the result then holds that variant. */
  lemma RestoreSucceedsIff(names: seq<string>, pos: nat, ptr0: Option<Decomposition>)
    requires pos < |names|
    ensures RestoreFrom(names, pos, 0, ptr0).ok <==> (pos == |names| - 1 && Known(names[pos]))
    ensures RestoreFrom(names, pos, 0, ptr0).ok ==> RestoreFrom(names, pos, 0, ptr0).ptr == Some(VariantOf(names[pos]))
  {
    if forall j :: pos <= j < |names| ==> Known(names[j]) {
      AllKnownOutcome(names, pos, 0, ptr0);
    } else {
      var j :| pos <= j < |names| && !Known(names[j]);
      FirstUnknown(names, pos, j);
    }
  }

  /** Some sibling is unknown: restore fails, without resetting the
      result and without moving past the first unknown sibling. */
  lemma FirstUnknown(names: seq<string>, pos: nat, j: nat)
    requires pos <= j < |names| && !Known(names[j])
    ensures forall ptr0: Option<Decomposition> ::
      !RestoreFrom(names, pos, 0, ptr0).ok && RestoreFrom(names, pos, 0, ptr0).at <= j
  {
    var first := FirstUnknownIndex(names, pos, j);
    forall ptr0: Option<Decomposition> ensures
      !RestoreFrom(names, pos, 0, ptr0).ok && RestoreFrom(names, pos, 0, ptr0).at <= j
    {
      UnknownStops(names, pos, 0, ptr0, first);
    }
  }

  function FirstUnknownIndex(names: seq<string>, i: nat, j: nat): (r: nat)
    requires i <= j < |names| && !Known(names[j])
    ensures i <= r <= j && !Known(names[r])
    ensures forall k :: i <= k < r ==> Known(names[k])
    decreases j - i
  {
    if !Known(names[i]) then i else FirstUnknownIndex(names, i + 1, j)
  }

  /** Two or more siblings, all recognised: restore fails and resets the
      result, having visited them all. */
  lemma TooManyResets(names: seq<string>, pos: nat, ptr0: Option<Decomposition>)
    requires pos + 1 < |names|
    requires forall j :: pos <= j < |names| ==> Known(names[j])
    ensures RestoreFrom(names, pos, 0, ptr0) == Outcome(false, None, |names| - 1)
  {
    AllKnownOutcome(names, pos, 0, ptr0);
  }

  // ---------------------------------------------------------------------
  // Persisting.

  datatype InsertEvent = ValueEvent(name: string, value: string) | LevelEvent(name: string)

  /** An inserter that records what it is asked to insert. */
  class Inserter {
    var events: seq<InsertEvent>
    const readable: bool

    constructor (readableTags: bool)
      ensures events == [] && readable == readableTags
    {
      events := [];
      readable := readableTags;
    }

    method InsertValue(t: Tag, value: string)
      modifies this
      ensures events == old(events) + [ValueEvent(TagName(t, readable), value)]
    {
      events := events + [ValueEvent(TagName(t, readable), value)];
    }

    /** The level's own contents are written by the decomposition and are
        not part of this model. */
    method InsertLevel(t: Tag)
      modifies this
      ensures events == old(events) + [LevelEvent(TagName(t, readable))]
    {
      events := events + [LevelEvent(TagName(t, readable))];
    }
  }

  function PersistEvents(d: Decomposition, readable: bool): seq<InsertEvent> {
    match d
      case Full => [LevelEvent(TagName(TIME_SERIES_DECOMPOSITION_TAG, readable))]
      case Stub => [ValueEvent(TagName(TIME_SERIES_DECOMPOSITION_STUB_TAG, readable), "")]
      case Other => []
  }

  /** Persist: a level for the full decomposition, an empty value for the
      stub, nothing for any other subclass. */
  method Persist(d: Decomposition, ins: Inserter)
    modifies ins
    ensures ins.events == old(ins.events) + PersistEvents(d, ins.readable)
  {
    match d {
      case Full => ins.InsertLevel(TIME_SERIES_DECOMPOSITION_TAG);
      case Stub => ins.InsertValue(TIME_SERIES_DECOMPOSITION_STUB_TAG, "");
      case Other =>
    }
  }

  function EventName(e: InsertEvent): string {
    match e
      case ValueEvent(n, _) => n
      case LevelEvent(n) => n
  }

  function Names(es: seq<InsertEvent>): (r: seq<string>)
    ensures |r| == |es| && forall i :: 0 <= i < |es| ==> r[i] == EventName(es[i])
  {
    seq(|es|, i requires 0 <= i < |es| => EventName(es[i]))
  }

  /** Restoring what persist wrote gives back the same variant, in either
      naming mode. */
  lemma PersistRestoreRoundTrip(d: Decomposition, readable: bool, ptr0: Option<Decomposition>)
    requires d != Other
    ensures |Names(PersistEvents(d, readable))| == 1
    ensures RestoreFrom(Names(PersistEvents(d, readable)), 0, 0, ptr0) == Outcome(true, Some(d), 0)
  {
    var names := Names(PersistEvents(d, readable));
    if d == Stub {
      assert |TIME_SERIES_DECOMPOSITION_STUB_TAG.readable| != |TIME_SERIES_DECOMPOSITION_TAG.readable|;
      assert !Matches(names[0], TIME_SERIES_DECOMPOSITION_TAG);
    }
  }
}
