/** The JSON state persist inserter: the same inserts the XML inserter
    records become one JSON object, each value a string member and each
    level a nested object, keys by short code or by readable name. */
module JsonStatePersist {
  import opened Util
  import opened JsonTokens
  import opened PersistenceTag
  import opened StatePersistInserter

  /** The member one insert renders to. */
  function RenderOne(op: Insert, readableTags: bool): (m: Member)
    ensures m.key == TagName(op.tag, readableTags)
    decreases op, 1
  {
    match op
      case InsertValue(t, v) => Member(TagName(t, readableTags), JString(v))
      case InsertLevel(t, body) => Member(TagName(t, readableTags), JObject(RenderMembers(body, readableTags)))
  }

  /** One member per insert, in insertion order. */
  function RenderMembers(prog: seq<Insert>, readableTags: bool): (ms: seq<Member>)
    ensures |ms| == |prog|
    ensures forall k :: 0 <= k < |prog| ==> ms[k] == RenderOne(prog[k], readableTags)
    decreases prog, 0
  {
    if prog == [] then [] else [RenderOne(prog[0], readableTags)] + RenderMembers(prog[1..], readableTags)
  }

  function Render(prog: seq<Insert>, readableTags: bool): Json {
    JObject(RenderMembers(prog, readableTags))
  }

  /** Only strings and objects: what persisted state renders to. */
  predicate StringsOnly(j: Json)
    decreases j, 1
  {
    match j
      case JString(_) => true
      case JObject(ms) => MembersStringsOnly(ms)
      case _ => false
  }

  predicate MembersStringsOnly(ms: seq<Member>)
    decreases ms, 0
  {
    forall k :: 0 <= k < |ms| ==> StringsOnly(ms[k].value)
  }

  /** Every scalar is rendered as a string, whatever was inserted. */
  lemma {:induction false} RenderStringsOnly(prog: seq<Insert>, readableTags: bool)
    ensures StringsOnly(Render(prog, readableTags))
    decreases prog, 0
  {
    forall k | 0 <= k < |prog|
      ensures StringsOnly(RenderMembers(prog, readableTags)[k].value)
    {
      RenderOneStringsOnly(prog[k], readableTags);
    }
  }

  lemma {:induction false} RenderOneStringsOnly(op: Insert, readableTags: bool)
    ensures StringsOnly(RenderOne(op, readableTags).value)
    decreases op, 1
  {
    match op
    case InsertValue(_, _) =>
    case InsertLevel(_, body) =>
      RenderStringsOnly(body, readableTags);
  }

  /** A JSON value with every key blanked out: its shape. */
  function Shape(j: Json): Json
    decreases j, 1
  {
    match j
      case JObject(ms) => JObject(MembersShape(ms))
      case JArray(es) => JArray(ElementsShape(es))
      case _ => j
  }

  function MembersShape(ms: seq<Member>): (r: seq<Member>)
    ensures |r| == |ms|
    decreases ms, 0
  {
    if ms == [] then [] else [Member("", Shape(ms[0].value))] + MembersShape(ms[1..])
  }

  function ElementsShape(es: seq<Json>): (r: seq<Json>)
    decreases es, 0
  {
    if es == [] then [] else [Shape(es[0])] + ElementsShape(es[1..])
  }

  /** Compact and readable renderings differ only in their keys. */
  lemma {:induction false} ModesSameShape(prog: seq<Insert>)
    ensures MembersShape(RenderMembers(prog, true)) == MembersShape(RenderMembers(prog, false))
    decreases prog, 0
  {
    if prog != [] {
      ModesSameShapeOne(prog[0]);
      ModesSameShape(prog[1..]);
    }
  }

  lemma {:induction false} ModesSameShapeOne(op: Insert)
    ensures Shape(RenderOne(op, true).value) == Shape(RenderOne(op, false).value)
    decreases op, 1
  {
    match op
    case InsertValue(_, _) =>
    case InsertLevel(_, body) =>
      ModesSameShape(body);
  }

  // ---------------------------------------------------------------------
  // The document the persistence test writes.

  /** Compact mode: the short codes as keys, the integer and the character
      as strings, the level as a nested object (x is the rendering of the
      floating-point value, which this model does not compute). */
  lemma CompactRendering(x: string)
    ensures Render(TestInserts(x), false) ==
      JObject([Member("a", JString("a")), Member("b", JString("25")),
               Member("c", JObject([Member("a", JString(x)), Member("b", JString("z"))]))])
  {
    var body := [InsertValue(LEVEL2A_TAG, x), InsertValue(LEVEL2B_TAG, "z")];
    assert RenderMembers(body, false) == [Member("a", JString(x)), Member("b", JString("z"))];
  }

  /** Readable mode: the same object with the readable names as keys. */
  lemma ReadableRendering(x: string)
    ensures Render(TestInserts(x), true) ==
      JObject([Member("level1A", JString("a")), Member("level1B", JString("25")),
               Member("level1C", JObject([Member("level2A", JString(x)), Member("level2B", JString("z"))]))])
  {
    var body := [InsertValue(LEVEL2A_TAG, x), InsertValue(LEVEL2B_TAG, "z")];
    assert RenderMembers(body, true) == [Member("level2A", JString(x)), Member("level2B", JString("z"))];
  }

  // ---------------------------------------------------------------------
  // The inserter, writing to a JSON event stream.

  class JsonInserter {
    var events: seq<Token>
    const readableTags: bool

    /** The outer object is opened on construction. */
    constructor (readable: bool)
      ensures events == [StartObject] && readableTags == readable
    {
      events := [StartObject];
      readableTags := readable;
    }

    method InsertValue(t: Tag, value: string)
      modifies this
      ensures events == old(events) + [Key(TagName(t, readableTags)), Str(value)]
    {
      events := events + [Key(TagName(t, readableTags)), Str(value)];
    }

    /** A nested object under the tag, holding what the body inserts. */
    method InsertLevel(t: Tag, body: seq<Insert>)
      modifies this
      ensures events == old(events) + [Key(TagName(t, readableTags)), StartObject]
        + MembersTokens(RenderMembers(body, readableTags)) + [EndObject]
      decreases body, 2
    {
      events := events + [Key(TagName(t, readableTags)), StartObject];
      PerformAll(body);
      events := events + [EndObject];
    }

    method Perform(op: Insert)
      modifies this
      ensures events == old(events) + [Key(RenderOne(op, readableTags).key)] + Tokens(RenderOne(op, readableTags).value)
      decreases op, 1
    {
      match op {
        case InsertValue(t, v) =>
          InsertValue(t, v);
          assert [Key(TagName(t, readableTags)), Str(v)] == [Key(TagName(t, readableTags))] + [Str(v)];
        case InsertLevel(t, body) =>
          InsertLevel(t, body);
          ghost var k := [Key(TagName(t, readableTags))];
          ghost var b := MembersTokens(RenderMembers(body, readableTags));
          assert [Key(TagName(t, readableTags)), StartObject] == k + [StartObject];
          assert old(events) + (k + [StartObject]) + b + [EndObject] == old(events) + k + ([StartObject] + b + [EndObject]);
      }
    }

    method PerformAll(prog: seq<Insert>)
      modifies this
      ensures events == old(events) + MembersTokens(RenderMembers(prog, readableTags))
      decreases prog, 0
    {
      var i := 0;
      while i < |prog|
        invariant 0 <= i <= |prog|
        invariant old(events) + MembersTokens(RenderMembers(prog, readableTags))
          == events + MembersTokens(RenderMembers(prog[i..], readableTags))
        decreases |prog| - i
      {
        ghost var before := events;
        Perform(prog[i]);
        PerformStep(before, events, prog, i, readableTags);
        i := i + 1;
      }
      assert prog[|prog|..] == [];
      assert events + [] == events;
    }

    /** Closes the outer object (the inserter going out of scope). */
    method Close()
      modifies this
      ensures events == old(events) + [EndObject]
    {
      events := events + [EndObject];
    }
  }

  /** One pass of the insert loop: the member for prog[i] has been written. */
  lemma PerformStep(before: seq<Token>, after: seq<Token>, prog: seq<Insert>, i: nat, readableTags: bool)
    requires i < |prog|
    requires after == before + [Key(RenderOne(prog[i], readableTags).key)] + Tokens(RenderOne(prog[i], readableTags).value)
    ensures before + MembersTokens(RenderMembers(prog[i..], readableTags))
      == after + MembersTokens(RenderMembers(prog[i + 1..], readableTags))
  {
    var m := RenderOne(prog[i], readableTags);
    var rest := MembersTokens(RenderMembers(prog[i + 1..], readableTags));
    assert prog[i..][1..] == prog[i + 1..];
    assert RenderMembers(prog[i..], readableTags) == [m] + RenderMembers(prog[i + 1..], readableTags);
    assert ([m] + RenderMembers(prog[i + 1..], readableTags))[1..] == RenderMembers(prog[i + 1..], readableTags);
    assert MembersTokens(RenderMembers(prog[i..], readableTags)) == [Key(m.key)] + Tokens(m.value) + rest;
    Assoc(before + [Key(m.key)], Tokens(m.value), rest);
    Assoc(before, [Key(m.key)], Tokens(m.value) + rest);
  }

  /** Whatever is inserted, a fresh inserter closed afterwards has written
      exactly the rendering, and it is one well-formed document. */
  lemma InsertedIsRendering(prog: seq<Insert>, readableTags: bool)
    ensures [StartObject] + MembersTokens(RenderMembers(prog, readableTags)) + [EndObject] == Tokens(Render(prog, readableTags))
    ensures Document(Tokens(Render(prog, readableTags)))
  {
    ValueIsDocument(Render(prog, readableTags));
  }

  /** The persistence test's sequence: construct, insert, close. */
  method WriteTestState(x: string, readable: bool) returns (events: seq<Token>)
    ensures events == Tokens(Render(TestInserts(x), readable)) && Document(events)
  {
    var inserter := new JsonInserter(readable);
    inserter.InsertValue(LEVEL1A_TAG, "a");
    inserter.InsertValue(LEVEL1B_TAG, "25");
    inserter.InsertLevel(LEVEL1C_TAG, [InsertValue(LEVEL2A_TAG, x), InsertValue(LEVEL2B_TAG, "z")]);
    inserter.Close();
    events := inserter.events;
    TestEvents(x, readable);
    InsertedIsRendering(TestInserts(x), readable);
  }

  /** The events of those calls, in the order made, are the rendering's. */
  lemma TestEvents(x: string, readableTags: bool)
    ensures [StartObject] + [Key(TagName(LEVEL1A_TAG, readableTags)), Str("a")]
      + [Key(TagName(LEVEL1B_TAG, readableTags)), Str("25")]
      + [Key(TagName(LEVEL1C_TAG, readableTags)), StartObject]
      + MembersTokens(RenderMembers([InsertValue(LEVEL2A_TAG, x), InsertValue(LEVEL2B_TAG, "z")], readableTags))
      + [EndObject] + [EndObject]
      == Tokens(Render(TestInserts(x), readableTags))
  {
    var body := [InsertValue(LEVEL2A_TAG, x), InsertValue(LEVEL2B_TAG, "z")];
    var m1 := Member(TagName(LEVEL1A_TAG, readableTags), JString("a"));
    var m2 := Member(TagName(LEVEL1B_TAG, readableTags), JString("25"));
    var m3 := Member(TagName(LEVEL1C_TAG, readableTags), JObject(RenderMembers(body, readableTags)));
    assert RenderMembers(TestInserts(x), readableTags) == [m1, m2, m3];
    ThreeMembersTokens(m1, m2, m3);
  }

  lemma ThreeMembersTokens(m1: Member, m2: Member, m3: Member)
    ensures MembersTokens([m1, m2, m3]) ==
      [Key(m1.key)] + Tokens(m1.value) + [Key(m2.key)] + Tokens(m2.value) + [Key(m3.key)] + Tokens(m3.value)
  {
    assert [m1, m2, m3][1..] == [m2, m3];
    assert [m2, m3][1..] == [m3];
    assert [m3][1..] == [];
    var t3 := [Key(m3.key)] + Tokens(m3.value);
    var t2 := [Key(m2.key)] + Tokens(m2.value);
    var t1 := [Key(m1.key)] + Tokens(m1.value);
    assert MembersTokens([m3]) == t3;
    assert MembersTokens([m2, m3]) == t2 + t3;
    assert MembersTokens([m1, m2, m3]) == t1 + (t2 + t3);
  }
}
