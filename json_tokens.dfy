/** The events a streaming JSON writer receives (the rapidjson SAX calls
    Key, String, Uint/Uint64, Double, Bool, StartObject, EndObject,
    StartArray, EndArray), a stack machine that says which event sequences
    are well-formed JSON, and a JSON value type whose serialisation the
    machine accepts. */
module JsonTokens {
  import opened Util

  datatype Token =
    | Key(name: string)
    | Str(text: string)
    | Uint(n: nat)
    | Double(d: real)
    | Bool(b: bool)
    | Null
    | StartObject
    | EndObject
    | StartArray
    | EndArray

  /** What the writer expects next inside one open container. */
  datatype Frame =
    | ObjectKey    // inside an object, a key or the end of the object
    | ObjectValue  // inside an object, just after a key: a value
    | InArray      // inside an array, an element or the end of the array

  /** The nesting state after a complete value has been written in the
      state `stk` (top of the stack is the last frame). At the outermost
      level a line writer accepts one document after another. */
  function Slot(stk: seq<Frame>): (r: Option<seq<Frame>>)
    ensures r.Some? ==> |r.value| == |stk|
  {
    if |stk| == 0 then Some([])
    else match stk[|stk| - 1]
      case ObjectKey => None
      case ObjectValue => Some(stk[..|stk| - 1] + [ObjectKey])
      case InArray => Some(stk)
  }

  /** One writer event. */
  function Step(stk: seq<Frame>, t: Token): Option<seq<Frame>> {
    match t
      case Key(_) =>
        if |stk| > 0 && stk[|stk| - 1] == ObjectKey
        then Some(stk[..|stk| - 1] + [ObjectValue]) else None
      case StartObject =>
        (match Slot(stk) case None => None case Some(s) => Some(s + [ObjectKey]))
      case StartArray =>
        (match Slot(stk) case None => None case Some(s) => Some(s + [InArray]))
      case EndObject =>
        if |stk| > 0 && stk[|stk| - 1] == ObjectKey then Some(stk[..|stk| - 1]) else None
      case EndArray =>
        if |stk| > 0 && stk[|stk| - 1] == InArray then Some(stk[..|stk| - 1]) else None
      case _ => Slot(stk)
  }

  /** A sequence of events, from the state `stk`; None if some event is
      out of place. */
  function Run(stk: seq<Frame>, s: seq<Token>): Option<seq<Frame>>
    decreases |s|
  {
    if |s| == 0 then Some(stk)
    else match Step(stk, s[0])
      case None => None
      case Some(next) => Run(next, s[1..])
  }

  function RunFrom(r: Option<seq<Frame>>, s: seq<Token>): Option<seq<Frame>> {
    match r
      case None => None
      case Some(stk) => Run(stk, s)
  }

  /** Running two event sequences one after the other. */
  lemma {:induction false} RunConcat(stk: seq<Frame>, a: seq<Token>, b: seq<Token>)
    ensures Run(stk, a + b) == RunFrom(Run(stk, a), b)
    decreases |a|
  {
    if |a| == 0 {
      assert a + b == b;
    } else {
      assert (a + b)[0] == a[0] && (a + b)[1..] == a[1..] + b;
      match Step(stk, a[0])
        case None =>
        case Some(next) => RunConcat(next, a[1..], b);
    }
  }

  /** A well-formed output of a line writer: complete JSON texts, one after
      another, with every container closed. */
  predicate Document(s: seq<Token>) {
    Run([], s) == Some([])
  }

  // ---------------------------------------------------------------------
  // JSON values and the events that write them.

  datatype Json =
    | JString(s: string)
    | JUint(n: nat)
    | JDouble(d: real)
    | JBool(b: bool)
    | JNull
    | JArray(elems: seq<Json>)
    | JObject(members: seq<Member>)

  datatype Member = Member(key: string, value: Json)

  function Tokens(v: Json): seq<Token>
    decreases v, 1
  {
    match v
      case JString(s) => [Str(s)]
      case JUint(n) => [Uint(n)]
      case JDouble(d) => [Double(d)]
      case JBool(b) => [Bool(b)]
      case JNull => [Null]
      case JArray(es) => [StartArray] + ElementsTokens(es) + [EndArray]
      case JObject(ms) => [StartObject] + MembersTokens(ms) + [EndObject]
  }

  function ElementsTokens(es: seq<Json>): seq<Token>
    decreases es, 0
  {
    if |es| == 0 then [] else Tokens(es[0]) + ElementsTokens(es[1..])
  }

  function MembersTokens(ms: seq<Member>): seq<Token>
    decreases ms, 0
  {
    if |ms| == 0 then []
    else [Key(ms[0].key)] + Tokens(ms[0].value) + MembersTokens(ms[1..])
  }

  function Keys(ms: seq<Member>): (r: seq<string>)
    ensures |r| == |ms| && forall i :: 0 <= i < |ms| ==> r[i] == ms[i].key
  {
    if |ms| == 0 then [] else [ms[0].key] + Keys(ms[1..])
  }

  lemma {:induction false} ElementsTokensConcat(a: seq<Json>, b: seq<Json>)
    ensures ElementsTokens(a + b) == ElementsTokens(a) + ElementsTokens(b)
  {
    if |a| == 0 {
      assert a + b == b;
    } else {
      assert (a + b)[0] == a[0] && (a + b)[1..] == a[1..] + b;
      ElementsTokensConcat(a[1..], b);
    }
  }

  lemma {:induction false} MembersTokensConcat(a: seq<Member>, b: seq<Member>)
    ensures MembersTokens(a + b) == MembersTokens(a) + MembersTokens(b)
  {
    if |a| == 0 {
      assert a + b == b;
    } else {
      assert (a + b)[0] == a[0] && (a + b)[1..] == a[1..] + b;
      MembersTokensConcat(a[1..], b);
    }
  }

  /** The writer accepts the events of any JSON value wherever a value may
      stand, and ends in the state a complete value leaves. */
  lemma {:induction false} ValueAccepted(v: Json, stk: seq<Frame>)
    requires Slot(stk).Some?
    ensures Run(stk, Tokens(v)) == Slot(stk)
    decreases v, 2
  {
    match v
      case JArray(es) =>
        ElementsAccepted(es, Slot(stk).value);
        ContainerAccepted(stk, StartArray, ElementsTokens(es), EndArray, InArray);
      case JObject(ms) =>
        MembersAccepted(ms, Slot(stk).value);
        ContainerAccepted(stk, StartObject, MembersTokens(ms), EndObject, ObjectKey);
      case _ =>
  }

  /** An opening event, a body that leaves the new frame in place, and the
      matching closing event make a complete value. */
  lemma ContainerAccepted(stk: seq<Frame>, open: Token, body: seq<Token>, close: Token, frame: Frame)
    requires Slot(stk).Some?
    requires (open == StartArray && close == EndArray && frame == InArray) ||
             (open == StartObject && close == EndObject && frame == ObjectKey)
    requires Run(Slot(stk).value + [frame], body) == Some(Slot(stk).value + [frame])
    ensures Run(stk, [open] + body + [close]) == Slot(stk)
  {
    var inner := Slot(stk).value + [frame];
    RunConcat(stk, [open] + body, [close]);
    RunConcat(stk, [open], body);
    assert inner[..|inner| - 1] == Slot(stk).value;
    assert Step(stk, open) == Some(inner);
    assert Run(stk, [open]) == Some(inner);
    assert Step(inner, close) == Slot(stk);
    assert Run(inner, [close]) == Slot(stk);
  }

  lemma {:induction false} ElementsAccepted(es: seq<Json>, stk: seq<Frame>)
    ensures Run(stk + [InArray], ElementsTokens(es)) == Some(stk + [InArray])
    decreases es, 0
  {
    if |es| > 0 {
      RunConcat(stk + [InArray], Tokens(es[0]), ElementsTokens(es[1..]));
      ValueAccepted(es[0], stk + [InArray]);
      ElementsAccepted(es[1..], stk);
    }
  }

  lemma {:induction false} MembersAccepted(ms: seq<Member>, stk: seq<Frame>)
    ensures Run(stk + [ObjectKey], MembersTokens(ms)) == Some(stk + [ObjectKey])
    decreases ms, 0
  {
    if |ms| > 0 {
      var afterKey := stk + [ObjectValue];
      assert (stk + [ObjectKey])[..|stk|] == stk;
      assert Step(stk + [ObjectKey], Key(ms[0].key)) == Some(afterKey);
      RunConcat(stk + [ObjectKey], [Key(ms[0].key)] + Tokens(ms[0].value), MembersTokens(ms[1..]));
      RunConcat(stk + [ObjectKey], [Key(ms[0].key)], Tokens(ms[0].value));
      ValueAccepted(ms[0].value, afterKey);
      assert afterKey[..|afterKey| - 1] == stk;
      MembersAccepted(ms[1..], stk);
    }
  }

  /** The events of one JSON value form a document. */
  lemma ValueIsDocument(v: Json)
    ensures Document(Tokens(v))
  {
    ValueAccepted(v, []);
  }

  /** Documents written one after another form a document. */
  lemma DocumentConcat(a: seq<Token>, b: seq<Token>)
    requires Document(a) && Document(b)
    ensures Document(a + b)
  {
    RunConcat([], a, b);
  }
}
