/** The XML state persist inserter: a growing document tree with a
    cursor on the element that receives new children, and a running
    estimate of the rendered length. The tree is an arena of nodes with
    parent indices; node 0 is the document node, node 1 the root element. */
module StatePersistInserter {
  import opened Util
  import opened PersistenceTag

  datatype XmlNode = XmlNode(name: string, value: string, parent: Option<nat>)

  /** The document node: the parent of the root element, itself parentless. */
  const DOCUMENT := XmlNode("", "", None)

  datatype XmlState = XmlState(nodes: seq<XmlNode>, attributes: seq<(string, string)>, level: nat, approxLen: nat)

  /** A tree: the document first, every other node after its parent, and
      the cursor on an existing node. */
  ghost predicate WellFormed(s: XmlState) {
    && |s.nodes| >= 2
    && s.nodes[0] == DOCUMENT
    && (forall i :: 0 < i < |s.nodes| ==> s.nodes[i].parent.Some? && s.nodes[i].parent.value < i)
    && s.level < |s.nodes|
  }

  function AttributeNames(attrs: seq<(string, string)>): (r: seq<string>)
    ensures |r| == |attrs| && forall i :: 0 <= i < |attrs| ==> r[i] == attrs[i].0
  {
    seq(|attrs|, i requires 0 <= i < |attrs| => attrs[i].0)
  }

  /** What the root attributes add to the length estimate. */
  function AttributesCost(attrs: seq<(string, string)>): nat {
    if attrs == [] then 0
    else AttributesCost(attrs[..|attrs| - 1]) + 5 + |attrs[|attrs| - 1].0| + |attrs[|attrs| - 1].1|
  }

  /** The state after construction: one root element under the document,
      the cursor on it. */
  function InitState(rootName: string, attrs: seq<(string, string)>): (r: XmlState)
    ensures WellFormed(r) && r.level == 1 && r.nodes[1].name == rootName
    ensures r.approxLen >= 12 + 2 * |rootName|
  {
    XmlState([DOCUMENT, XmlNode(rootName, "", Some(0))], attrs, 1, 12 + 2 * |rootName| + AttributesCost(attrs))
  }

  function InsertValueState(s: XmlState, name: string, value: string): (r: XmlState)
    ensures WellFormed(s) ==> WellFormed(r)
    ensures r.level == s.level && r.approxLen > s.approxLen
    ensures |r.nodes| == |s.nodes| + 1 && r.nodes[..|s.nodes|] == s.nodes
  {
    s.(nodes := s.nodes + [XmlNode(name, value, Some(s.level))],
       approxLen := s.approxLen + 5 + 2 * |name| + |value|)
  }

  function NewLevelState(s: XmlState, name: string): (r: XmlState)
    ensures WellFormed(s) ==> WellFormed(r)
    ensures r.level == |s.nodes| && |r.nodes| == |s.nodes| + 1 && r.nodes[r.level].parent == Some(s.level)
    ensures r.approxLen > s.approxLen
  {
    s.(nodes := s.nodes + [XmlNode(name, "", Some(s.level))],
       level := |s.nodes|,
       approxLen := s.approxLen + 5 + 2 * |name|)
  }

  /** Ending a level moves the cursor to the parent; with no parent the
      error is logged and nothing changes. */
  function EndLevelState(s: XmlState): (r: XmlState)
    requires s.level < |s.nodes|
    ensures WellFormed(s) ==> WellFormed(r)
    ensures r.nodes == s.nodes && r.approxLen == s.approxLen
    ensures s.nodes[s.level].parent.None? ==> r == s
    ensures WellFormed(s) && s.nodes[s.level].parent.Some? ==> r.level == s.nodes[s.level].parent.value
  {
    match s.nodes[s.level].parent
      case None => s
      case Some(p) => if p < |s.nodes| then s.(level := p) else s
  }

  // ---------------------------------------------------------------------
  // The child lists of the tree.

  /** The indices below off + n in c (read as starting at index off)
      whose parent is p, in order. */
  function ChildrenIn(c: seq<XmlNode>, p: nat, off: nat, n: nat): seq<nat>
    requires n <= |c|
  {
    if n == 0 then []
    else ChildrenIn(c, p, off, n - 1) + (if c[n - 1].parent == Some(p) then [off + n - 1] else [])
  }

  /** The children of node p in document order. */
  function Children(nodes: seq<XmlNode>, p: nat): seq<nat> {
    ChildrenIn(nodes, p, 0, |nodes|)
  }

  lemma {:induction false} ChildrenInConcat(a: seq<XmlNode>, c: seq<XmlNode>, p: nat, off: nat, n: nat)
    requires n <= |c|
    ensures ChildrenIn(a + c, p, off, |a| + n) == ChildrenIn(a, p, off, |a|) + ChildrenIn(c, p, off + |a|, n)
  {
    if n == 0 {
      ChildrenInPrefix(a, c, p, off, |a|);
    } else {
      ChildrenInConcat(a, c, p, off, n - 1);
      assert (a + c)[|a| + n - 1] == c[n - 1];
    }
  }

  lemma {:induction false} ChildrenInPrefix(a: seq<XmlNode>, c: seq<XmlNode>, p: nat, off: nat, n: nat)
    requires n <= |a|
    ensures ChildrenIn(a + c, p, off, n) == ChildrenIn(a, p, off, n)
  {
    if n > 0 {
      ChildrenInPrefix(a, c, p, off, n - 1);
      assert (a + c)[n - 1] == a[n - 1];
    }
  }

  lemma {:induction false} ChildrenInNone(c: seq<XmlNode>, p: nat, off: nat, n: nat)
    requires n <= |c|
    requires forall k :: 0 <= k < n ==> c[k].parent != Some(p)
    ensures ChildrenIn(c, p, off, n) == []
  {
    if n > 0 {
      ChildrenInNone(c, p, off, n - 1);
    }
  }

  /** insertValue and newLevel add the new element as the last child of
      the current level; no other node gains a child. */
  lemma AppendedAsLastChild(s: XmlState, x: XmlNode, q: nat)
    requires x.parent == Some(s.level)
    ensures Children(s.nodes + [x], s.level) == Children(s.nodes, s.level) + [|s.nodes|]
    ensures q != s.level ==> Children(s.nodes + [x], q) == Children(s.nodes, q)
  {
    ChildrenInConcat(s.nodes, [x], s.level, 0, 1);
    ChildrenInConcat(s.nodes, [x], q, 0, 1);
  }

  // ---------------------------------------------------------------------
  // Sequences of inserts.

  /** What a persist routine does: insert a value, or insert a level
      whose contents another routine writes. */
  datatype Insert = InsertValue(tag: Tag, value: string) | InsertLevel(tag: Tag, body: seq<Insert>)

  /** insertLevel: a new level, its contents, and the end of that level. */
  function Apply(s: XmlState, op: Insert, readableTags: bool): (r: XmlState)
    requires s.level < |s.nodes|
    ensures r.level < |r.nodes|
    decreases op, 1
  {
    match op
      case InsertValue(t, v) => InsertValueState(s, TagName(t, readableTags), v)
      case InsertLevel(t, body) =>
        EndLevelState(ApplyAll(NewLevelState(s, TagName(t, readableTags)), body, readableTags))
  }

  function ApplyAll(s: XmlState, prog: seq<Insert>, readableTags: bool): (r: XmlState)
    requires s.level < |s.nodes|
    ensures r.level < |r.nodes|
    decreases prog, 0
  {
    if prog == [] then s else ApplyAll(Apply(s, prog[0], readableTags), prog[1..], readableTags)
  }

  /** The nodes an insert appends when the cursor is on p and the arena
      has b nodes: the elements in document (pre-)order. */
  function LayoutOne(op: Insert, p: nat, b: nat, readableTags: bool): (r: seq<XmlNode>)
    ensures |r| >= 1
    decreases op, 1
  {
    match op
      case InsertValue(t, v) => [XmlNode(TagName(t, readableTags), v, Some(p))]
      case InsertLevel(t, body) => [XmlNode(TagName(t, readableTags), "", Some(p))] + LayoutAll(body, b, b + 1, readableTags)
  }

  function LayoutAll(prog: seq<Insert>, p: nat, b: nat, readableTags: bool): seq<XmlNode>
    decreases prog, 0
  {
    if prog == [] then []
    else
      var h := LayoutOne(prog[0], p, b, readableTags);
      h + LayoutAll(prog[1..], p, b + |h|, readableTags)
  }

  lemma LayoutAllUnfold(prog: seq<Insert>, p: nat, b: nat, readableTags: bool)
    requires prog != []
    ensures LayoutAll(prog, p, b, readableTags) ==
      LayoutOne(prog[0], p, b, readableTags) +
      LayoutAll(prog[1..], p, b + |LayoutOne(prog[0], p, b, readableTags)|, readableTags)
  {
  }

  /** What an insert adds to the length estimate. */
  function CostOne(op: Insert, readableTags: bool): nat
    decreases op, 1
  {
    match op
      case InsertValue(t, v) => 5 + 2 * |TagName(t, readableTags)| + |v|
      case InsertLevel(t, body) => 5 + 2 * |TagName(t, readableTags)| + CostAll(body, readableTags)
  }

  function CostAll(prog: seq<Insert>, readableTags: bool): nat
    decreases prog, 0
  {
    if prog == [] then 0 else CostOne(prog[0], readableTags) + CostAll(prog[1..], readableTags)
  }

  /** Running an insert appends its layout, adds its cost and leaves the
      cursor where it was: every level it opens it also closes. */
  lemma {:induction false} ApplyLayout(s: XmlState, op: Insert, readableTags: bool)
    requires s.level < |s.nodes|
    ensures Apply(s, op, readableTags).nodes == s.nodes + LayoutOne(op, s.level, |s.nodes|, readableTags)
    ensures Apply(s, op, readableTags).approxLen == s.approxLen + CostOne(op, readableTags)
    ensures Apply(s, op, readableTags).level == s.level
    ensures Apply(s, op, readableTags).attributes == s.attributes
    decreases op, 1
  {
    match op
    case InsertValue(t, v) =>
    case InsertLevel(t, body) =>
      var s1 := NewLevelState(s, TagName(t, readableTags));
      ApplyAllLayout(s1, body, readableTags);
      var s2 := ApplyAll(s1, body, readableTags);
      assert s2.nodes[|s.nodes|] == s1.nodes[|s.nodes|];
      assert s2.nodes == s.nodes + LayoutOne(op, s.level, |s.nodes|, readableTags);
  }

  lemma {:induction false} ApplyAllLayout(s: XmlState, prog: seq<Insert>, readableTags: bool)
    requires s.level < |s.nodes|
    ensures ApplyAll(s, prog, readableTags).nodes == s.nodes + LayoutAll(prog, s.level, |s.nodes|, readableTags)
    ensures ApplyAll(s, prog, readableTags).approxLen == s.approxLen + CostAll(prog, readableTags)
    ensures ApplyAll(s, prog, readableTags).level == s.level
    ensures ApplyAll(s, prog, readableTags).attributes == s.attributes
    decreases prog, 0
  {
    if prog == [] {
      assert s.nodes + [] == s.nodes;
    } else {
      ApplyLayout(s, prog[0], readableTags);
      var h := LayoutOne(prog[0], s.level, |s.nodes|, readableTags);
      var s1 := Apply(s, prog[0], readableTags);
      assert s1.nodes == s.nodes + h && s1.level == s.level;
      assert ApplyAll(s, prog, readableTags) == ApplyAll(s1, prog[1..], readableTags);
      ApplyAllLayout(s1, prog[1..], readableTags);
      var t := LayoutAll(prog[1..], s.level, |s.nodes| + |h|, readableTags);
      LayoutAllUnfold(prog, s.level, |s.nodes|, readableTags);
      Assoc(s.nodes, h, t);
    }
  }

  /** The length estimate never decreases over a sequence of inserts. */
  lemma ApproxLenMonotone(s: XmlState, prog: seq<Insert>, readableTags: bool)
    requires s.level < |s.nodes|
    ensures ApplyAll(s, prog, readableTags).approxLen >= s.approxLen
    ensures ApplyAll(s, prog, readableTags).level == s.level
  {
    ApplyAllLayout(s, prog, readableTags);
  }

  /** Inside a layout every node hangs from p or from an earlier node of
      the layout, the first node of each top-level insert from p. */
  lemma {:induction false} LayoutOneParents(op: Insert, p: nat, b: nat, readableTags: bool)
    requires p < b
    ensures LayoutOne(op, p, b, readableTags)[0].parent == Some(p)
    ensures forall k :: 0 < k < |LayoutOne(op, p, b, readableTags)| ==>
      LayoutOne(op, p, b, readableTags)[k].parent.Some? &&
      b <= LayoutOne(op, p, b, readableTags)[k].parent.value < b + k
    decreases op, 1
  {
    match op
    case InsertValue(t, v) =>
    case InsertLevel(t, body) =>
      LayoutAllParents(body, b, b + 1, readableTags);
  }

  lemma {:induction false} LayoutAllParents(prog: seq<Insert>, p: nat, b: nat, readableTags: bool)
    requires p < b
    ensures forall k :: 0 <= k < |LayoutAll(prog, p, b, readableTags)| ==>
      LayoutAll(prog, p, b, readableTags)[k].parent.Some? &&
      (LayoutAll(prog, p, b, readableTags)[k].parent.value == p ||
       b <= LayoutAll(prog, p, b, readableTags)[k].parent.value < b + k)
    decreases prog, 0
  {
    if prog != [] {
      var h := LayoutOne(prog[0], p, b, readableTags);
      LayoutOneParents(prog[0], p, b, readableTags);
      LayoutAllParents(prog[1..], p, b + |h|, readableTags);
    }
  }

  /** Every sequence of inserts keeps the document a tree. */
  lemma ApplyAllWellFormed(s: XmlState, prog: seq<Insert>, readableTags: bool)
    requires WellFormed(s)
    ensures WellFormed(ApplyAll(s, prog, readableTags))
  {
    ApplyAllLayout(s, prog, readableTags);
    LayoutAllParents(prog, s.level, |s.nodes|, readableTags);
    var r := ApplyAll(s, prog, readableTags);
    var l := LayoutAll(prog, s.level, |s.nodes|, readableTags);
    forall i | 0 < i < |r.nodes|
      ensures r.nodes[i].parent.Some? && r.nodes[i].parent.value < i
    {
      if i >= |s.nodes| {
        assert r.nodes[i] == l[i - |s.nodes|];
      }
    }
  }

  /** The indices at which the top-level inserts of prog place their
      elements, for an arena of b nodes. */
  function TopIndices(prog: seq<Insert>, p: nat, b: nat, readableTags: bool): (r: seq<nat>)
    ensures |r| == |prog|
    decreases prog
  {
    if prog == [] then []
    else [b] + TopIndices(prog[1..], p, b + |LayoutOne(prog[0], p, b, readableTags)|, readableTags)
  }

  /** One insert gives the current level exactly one child: its first
      element. */
  lemma LayoutOneChildren(op: Insert, p: nat, b: nat, readableTags: bool)
    requires p < b
    ensures ChildrenIn(LayoutOne(op, p, b, readableTags), p, b, |LayoutOne(op, p, b, readableTags)|) == [b]
  {
    var h := LayoutOne(op, p, b, readableTags);
    LayoutOneParents(op, p, b, readableTags);
    ChildrenInNone(h[1..], p, b + 1, |h| - 1);
    ChildrenInConcat([h[0]], h[1..], p, b, |h| - 1);
    assert [h[0]] + h[1..] == h;
  }

  /** Siblings appear in insertion order: the children the inserts give
      the current level are exactly their top-level elements. */
  lemma {:induction false} LayoutChildren(prog: seq<Insert>, p: nat, b: nat, readableTags: bool)
    requires p < b
    ensures ChildrenIn(LayoutAll(prog, p, b, readableTags), p, b, |LayoutAll(prog, p, b, readableTags)|)
      == TopIndices(prog, p, b, readableTags)
    decreases prog
  {
    if prog != [] {
      var h := LayoutOne(prog[0], p, b, readableTags);
      var t := LayoutAll(prog[1..], p, b + |h|, readableTags);
      LayoutAllUnfold(prog, p, b, readableTags);
      LayoutChildren(prog[1..], p, b + |h|, readableTags);
      LayoutOneChildren(prog[0], p, b, readableTags);
      ChildrenSplit(h, t, p, b, TopIndices(prog[1..], p, b + |h|, readableTags));
    }
  }

  lemma ChildrenSplit(h: seq<XmlNode>, t: seq<XmlNode>, p: nat, b: nat, rest: seq<nat>)
    requires ChildrenIn(h, p, b, |h|) == [b]
    requires ChildrenIn(t, p, b + |h|, |t|) == rest
    ensures ChildrenIn(h + t, p, b, |h + t|) == [b] + rest
  {
    ChildrenInConcat(h, t, p, b, |t|);
  }

  /** After a sequence of inserts at the current level, that level's
      children are its old ones followed by one element per insert, in
      order, each named by its tag in the mode in force. */
  lemma InsertOrder(s: XmlState, prog: seq<Insert>, readableTags: bool)
    requires WellFormed(s)
    ensures var r := ApplyAll(s, prog, readableTags);
      && Children(r.nodes, s.level) == Children(s.nodes, s.level) + TopIndices(prog, s.level, |s.nodes|, readableTags)
      && NamesAt(r.nodes, TopIndices(prog, s.level, |s.nodes|, readableTags), 0, TagNames(prog, readableTags))
  {
    ApplyAllLayout(s, prog, readableTags);
    var l := LayoutAll(prog, s.level, |s.nodes|, readableTags);
    InsertChildren(s.nodes, s.level, prog, readableTags);
    TopNames(prog, s.level, |s.nodes|, readableTags);
    NamesAtShift(s.nodes, l, TopIndices(prog, s.level, |s.nodes|, readableTags), TagNames(prog, readableTags));
  }

  /** The children of level p once the inserts' elements follow the
      arena. */
  lemma InsertChildren(nodes: seq<XmlNode>, p: nat, prog: seq<Insert>, readableTags: bool)
    requires p < |nodes|
    ensures Children(nodes + LayoutAll(prog, p, |nodes|, readableTags), p) ==
            Children(nodes, p) + TopIndices(prog, p, |nodes|, readableTags)
  {
    var l := LayoutAll(prog, p, |nodes|, readableTags);
    ChildrenInConcat(nodes, l, p, 0, |l|);
    LayoutChildren(prog, p, |nodes|, readableTags);
    assert |nodes + l| == |nodes| + |l|;
  }

  /** Placing an arena after pre moves its indices up by |pre|. */
  lemma NamesAtShift(pre: seq<XmlNode>, l: seq<XmlNode>, idx: seq<nat>, names: seq<string>)
    requires NamesAt(l, idx, |pre|, names)
    ensures NamesAt(pre + l, idx, 0, names)
  {
    forall k | 0 <= k < |idx|
      ensures idx[k] < |pre + l| && (pre + l)[idx[k]].name == names[k]
    {
      assert (pre + l)[idx[k]] == l[idx[k] - |pre|];
    }
  }

  /** The tag names of the inserts, in the mode in force. */
  function TagNames(prog: seq<Insert>, readableTags: bool): (r: seq<string>)
    ensures |r| == |prog| && forall k :: 0 <= k < |prog| ==> r[k] == TagName(prog[k].tag, readableTags)
  {
    if prog == [] then [] else [TagName(prog[0].tag, readableTags)] + TagNames(prog[1..], readableTags)
  }

  /** Arena l, starting at index b, holds at each of the indices idx an
      element with the corresponding name. */
  predicate NamesAt(l: seq<XmlNode>, idx: seq<nat>, b: nat, names: seq<string>) {
    |idx| == |names| &&
    forall k :: 0 <= k < |idx| ==> b <= idx[k] < b + |l| && l[idx[k] - b].name == names[k]
  }

  lemma NamesAtCons(h: seq<XmlNode>, t: seq<XmlNode>, ti: seq<nat>, b: nat, n0: string, rest: seq<string>)
    requires |h| >= 1 && h[0].name == n0
    requires NamesAt(t, ti, b + |h|, rest)
    ensures NamesAt(h + t, [b] + ti, b, [n0] + rest)
  {
    forall k | 0 < k < |ti| + 1
      ensures b <= ([b] + ti)[k] < b + |h + t| && (h + t)[([b] + ti)[k] - b].name == ([n0] + rest)[k]
    {
      assert ([b] + ti)[k] == ti[k - 1];
      assert (h + t)[ti[k - 1] - b] == t[ti[k - 1] - (b + |h|)];
    }
  }

  lemma {:induction false} TopNames(prog: seq<Insert>, p: nat, b: nat, readableTags: bool)
    ensures NamesAt(LayoutAll(prog, p, b, readableTags), TopIndices(prog, p, b, readableTags), b,
                    TagNames(prog, readableTags))
    decreases prog
  {
    if prog != [] {
      var h := LayoutOne(prog[0], p, b, readableTags);
      var t := LayoutAll(prog[1..], p, b + |h|, readableTags);
      var ti := TopIndices(prog[1..], p, b + |h|, readableTags);
      var n0 := TagName(prog[0].tag, readableTags);
      var rest := TagNames(prog[1..], readableTags);
      TopNames(prog[1..], p, b + |h|, readableTags);
      LayoutAllUnfold(prog, p, b, readableTags);
      LayoutOneFirst(prog[0], p, b, readableTags);
      NamesAtCons(h, t, ti, b, n0, rest);
      assert LayoutAll(prog, p, b, readableTags) == h + t;
      assert TopIndices(prog, p, b, readableTags) == [b] + ti;
    }
  }

  /** An insert's first element is named by its tag. */
  lemma LayoutOneFirst(op: Insert, p: nat, b: nat, readableTags: bool)
    ensures LayoutOne(op, p, b, readableTags)[0].name == TagName(op.tag, readableTags)
  {
  }

  // ---------------------------------------------------------------------
  // The inserter object.

  class RapidXmlInserter {
    var nodes: seq<XmlNode>
    var attributes: seq<(string, string)>
    var level: nat
    var approxLen: nat
    const readableTags: bool

    ghost function State(): XmlState
      reads this
    {
      XmlState(nodes, attributes, level, approxLen)
    }

    ghost predicate Valid()
      reads this
    {
      WellFormed(State())
    }

    constructor (rootName: string, readable: bool)
      ensures State() == InitState(rootName, []) && Valid() && readableTags == readable
    {
      nodes := [DOCUMENT, XmlNode(rootName, "", Some(0))];
      attributes := [];
      level := 1;
      approxLen := 12 + 2 * |rootName|;
      readableTags := readable;
    }

    /** The root attributes come in the map's (sorted) key order. */
    constructor WithAttributes(rootName: string, rootAttributes: seq<(string, string)>, readable: bool)
      requires StrictlySorted(AttributeNames(rootAttributes))
      ensures State() == InitState(rootName, rootAttributes) && Valid() && readableTags == readable
    {
      nodes := [DOCUMENT, XmlNode(rootName, "", Some(0))];
      attributes := [];
      level := 1;
      approxLen := 12 + 2 * |rootName|;
      readableTags := readable;
      new;
      for i := 0 to |rootAttributes|
        invariant nodes == [DOCUMENT, XmlNode(rootName, "", Some(0))] && level == 1
        invariant attributes == rootAttributes[..i]
        invariant approxLen == 12 + 2 * |rootName| + AttributesCost(rootAttributes[..i])
      {
        var name := rootAttributes[i].0;
        var value := rootAttributes[i].1;
        attributes := attributes + [(name, value)];
        approxLen := approxLen + 5 + |name| + |value|;
        assert rootAttributes[..i + 1][..i] == rootAttributes[..i];
      }
      assert rootAttributes[..|rootAttributes|] == rootAttributes;
    }

    method InsertValue(name: string, value: string)
      requires Valid()
      modifies this
      ensures State() == InsertValueState(old(State()), name, value) && Valid()
    {
      nodes := nodes + [XmlNode(name, value, Some(level))];
      approxLen := approxLen + 5 + 2 * |name| + |value|;
    }

    method NewLevel(name: string)
      requires Valid()
      modifies this
      ensures State() == NewLevelState(old(State()), name) && Valid()
    {
      var child := |nodes|;
      nodes := nodes + [XmlNode(name, "", Some(level))];
      approxLen := approxLen + 5 + 2 * |name|;
      level := child;
    }

    method EndLevel()
      requires Valid()
      modifies this
      ensures State() == EndLevelState(old(State())) && Valid()
    {
      var grandParent := nodes[level].parent;
      if grandParent.None? {
        return;
      }
      level := grandParent.value;
    }

    /** Inserts one value or level under its tag's name in this mode. */
    method Perform(op: Insert)
      requires Valid()
      modifies this
      ensures State() == Apply(old(State()), op, readableTags) && Valid()
      decreases op, 1
    {
      match op {
        case InsertValue(t, v) =>
          InsertValue(TagName(t, readableTags), v);
        case InsertLevel(t, body) =>
          NewLevel(TagName(t, readableTags));
          PerformAll(body);
          EndLevel();
      }
    }

    method PerformAll(prog: seq<Insert>)
      requires Valid()
      modifies this
      ensures State() == ApplyAll(old(State()), prog, readableTags) && Valid()
      decreases prog, 0
    {
      var i := 0;
      while i < |prog|
        invariant 0 <= i <= |prog| && Valid()
        invariant ApplyAll(old(State()), prog, readableTags) == ApplyAll(State(), prog[i..], readableTags)
        decreases |prog| - i
      {
        assert prog[i..][1..] == prog[i + 1..];
        Perform(prog[i]);
        i := i + 1;
      }
    }
  }

  // ---------------------------------------------------------------------
  // The document the persistence test writes.

  const LEVEL1A_TAG := Tag("a", "level1A")
  const LEVEL1B_TAG := Tag("b", "level1B")
  const LEVEL1C_TAG := Tag("c", "level1C")
  const LEVEL2A_TAG := Tag("a", "level2A")
  const LEVEL2B_TAG := Tag("b", "level2B")

  /** Two values and a level holding two more; x is the rendering of the
      floating-point value, which this model does not compute. */
  function TestInserts(x: string): seq<Insert> {
    [InsertValue(LEVEL1A_TAG, "a"), InsertValue(LEVEL1B_TAG, "25"),
     InsertLevel(LEVEL1C_TAG, [InsertValue(LEVEL2A_TAG, x), InsertValue(LEVEL2B_TAG, "z")])]
  }

  /** Where the test's inserts put their elements under the root. */
  lemma TestLayout(x: string, readableTags: bool)
    ensures LayoutAll(TestInserts(x), 1, 2, readableTags) ==
      [XmlNode(TagName(LEVEL1A_TAG, readableTags), "a", Some(1)),
       XmlNode(TagName(LEVEL1B_TAG, readableTags), "25", Some(1)),
       XmlNode(TagName(LEVEL1C_TAG, readableTags), "", Some(1)),
       XmlNode(TagName(LEVEL2A_TAG, readableTags), x, Some(4)),
       XmlNode(TagName(LEVEL2B_TAG, readableTags), "z", Some(4))]
  {
    var p := TestInserts(x);
    var body := [InsertValue(LEVEL2A_TAG, x), InsertValue(LEVEL2B_TAG, "z")];
    assert body[1..] == [InsertValue(LEVEL2B_TAG, "z")];
    assert LayoutAll(body[1..], 4, 6, readableTags) == [XmlNode(TagName(LEVEL2B_TAG, readableTags), "z", Some(4))];
    LayoutAllUnfold(body, 4, 5, readableTags);
    assert p[2..] == [p[2]] && p[2..][1..] == [];
    assert p[1..] == [p[1], p[2]] && p[1..][1..] == p[2..];
    assert LayoutAll(p[2..], 1, 4, readableTags) == LayoutOne(p[2], 1, 4, readableTags);
    LayoutAllUnfold(p[1..], 1, 3, readableTags);
    LayoutAllUnfold(p, 1, 2, readableTags);
  }

  /** What the test's inserts add to the length estimate. */
  lemma TestCost(x: string, readableTags: bool)
    ensures CostAll(TestInserts(x), readableTags) ==
      29 + 2 * (|TagName(LEVEL1A_TAG, readableTags)| + |TagName(LEVEL1B_TAG, readableTags)| + |TagName(LEVEL1C_TAG, readableTags)|
      + |TagName(LEVEL2A_TAG, readableTags)| + |TagName(LEVEL2B_TAG, readableTags)|) + |x|
  {
    var p := TestInserts(x);
    var body := [InsertValue(LEVEL2A_TAG, x), InsertValue(LEVEL2B_TAG, "z")];
    assert body[1..] == [InsertValue(LEVEL2B_TAG, "z")];
    assert CostAll(body[1..], readableTags) == 6 + 2 * |TagName(LEVEL2B_TAG, readableTags)|;
    assert CostAll(body, readableTags) == 5 + 2 * |TagName(LEVEL2A_TAG, readableTags)| + |x| + CostAll(body[1..], readableTags);
    assert p[2..] == [p[2]] && p[2..][1..] == [];
    assert p[1..] == [p[1], p[2]] && p[1..][1..] == p[2..];
    assert CostAll(p[2..], readableTags) == CostOne(p[2], readableTags);
    assert CostOne(p[2], readableTags) == 5 + 2 * |TagName(LEVEL1C_TAG, readableTags)| + CostAll(body, readableTags);
    assert CostAll(p[1..], readableTags) == CostOne(p[1], readableTags) + CostAll(p[2..], readableTags);
    assert CostAll(p, readableTags) == CostOne(p[0], readableTags) + CostAll(p[1..], readableTags);
  }

  /** In compact mode the elements are named by the short codes; the root
      keeps its attributes in key order. */
  lemma CompactDocument(x: string)
    ensures ApplyAll(InitState("root", [("attr1", "attrVal1"), ("attr2", "attrVal2")]), TestInserts(x), false) ==
      XmlState([DOCUMENT, XmlNode("root", "", Some(0)),
                XmlNode("a", "a", Some(1)), XmlNode("b", "25", Some(1)), XmlNode("c", "", Some(1)),
                XmlNode("a", x, Some(4)), XmlNode("b", "z", Some(4))],
               [("attr1", "attrVal1"), ("attr2", "attrVal2")], 1, 95 + |x|)
  {
    var s := InitState("root", [("attr1", "attrVal1"), ("attr2", "attrVal2")]);
    ApplyAllLayout(s, TestInserts(x), false);
    TestLayout(x, false);
    TestCost(x, false);
    assert AttributesCost([("attr1", "attrVal1"), ("attr2", "attrVal2")]) == 36 by {
      assert [("attr1", "attrVal1"), ("attr2", "attrVal2")][..1] == [("attr1", "attrVal1")];
      assert [("attr1", "attrVal1")][..0] == [];
    }
  }

  /** The same inserts in readable mode give the same tree with the
      readable names. */
  lemma ReadableDocument(x: string)
    ensures ApplyAll(InitState("root", []), TestInserts(x), true).nodes ==
      [DOCUMENT, XmlNode("root", "", Some(0)),
       XmlNode("level1A", "a", Some(1)), XmlNode("level1B", "25", Some(1)), XmlNode("level1C", "", Some(1)),
       XmlNode("level2A", x, Some(4)), XmlNode("level2B", "z", Some(4))]
  {
    ApplyAllLayout(InitState("root", []), TestInserts(x), true);
    TestLayout(x, true);
  }
}
