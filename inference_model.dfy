/** The trained-model object model of an exported inference model: tree
    nodes held in a vector and referring to their children by index, trees
    and ensembles of trees with their feature names, the pruning of unused
    features, the ensemble setters that fan a value out to every member,
    and the node counts behind a tree's size estimate. */
module InferenceModel {
  import opened Util

  datatype TargetType = Classification | Regression

  /** A node of a tree. The split gain is set only on some split nodes;
      the children are indices into the tree's node vector. */
  datatype TreeNode = TreeNode(
    nodeIndex: nat,
    threshold: real,
    defaultLeft: bool,
    leafValue: seq<real>,
    splitFeature: nat,
    numberSamples: nat,
    leftChild: Option<nat>,
    rightChild: Option<nat>,
    splitGain: Option<real>)

  /** A node is a leaf iff it has no left child. */
  predicate Leaf(n: TreeNode) {
    n.leftChild.None?
  }

  /** How an ensemble combines the outputs of its members. */
  datatype AggregateOutput =
    | WeightedSum(weights: seq<real>)
    | WeightedMode(weights: seq<real>)
    | LogisticRegression(weights: seq<real>)
    | Exponent(weights: seq<real>)

  // ---------------------------------------------------------------------
  // Pruning of unused features: the specification.

  /** Feature f is split on by some split node. */
  predicate Used(nodes: seq<TreeNode>, f: nat) {
    exists i :: 0 <= i < |nodes| && !Leaf(nodes[i]) && nodes[i].splitFeature == f
  }

  /** Every split node splits on a feature below `bound`. */
  predicate SplitFeaturesBelow(nodes: seq<TreeNode>, bound: nat) {
    forall i :: 0 <= i < |nodes| && !Leaf(nodes[i]) ==> nodes[i].splitFeature < bound
  }

  predicate Prefix(a: seq<nat>, b: seq<nat>) {
    |a| <= |b| && forall k :: 0 <= k < |a| ==> a[k] == b[k]
  }

  /** The split features of the first i nodes in order of first
      appearance, each once. */
  function OrderUpTo(nodes: seq<TreeNode>, i: nat): (o: seq<nat>)
    requires i <= |nodes|
    ensures Distinct(o)
    decreases i
  {
    if i == 0 then []
    else
      var o := OrderUpTo(nodes, i - 1);
      var n := nodes[i - 1];
      if !Leaf(n) && n.splitFeature !in o then o + [n.splitFeature] else o
  }

  /** The split features of all nodes in order of first appearance. */
  function Order(nodes: seq<TreeNode>): seq<nat> {
    OrderUpTo(nodes, |nodes|)
  }

  /** The order holds exactly the features split on. */
  lemma {:induction false} OrderUpToMembers(nodes: seq<TreeNode>, i: nat)
    requires i <= |nodes|
    ensures forall f :: f in OrderUpTo(nodes, i) <==>
      exists k :: 0 <= k < i && !Leaf(nodes[k]) && nodes[k].splitFeature == f
  {
    if i > 0 {
      OrderUpToMembers(nodes, i - 1);
    }
  }

  lemma OrderMembers(nodes: seq<TreeNode>)
    ensures forall f :: f in Order(nodes) <==> Used(nodes, f)
  {
    OrderUpToMembers(nodes, |nodes|);
  }

  /** The order of the first i nodes is a prefix of the order of the
      first j. */
  lemma {:induction false} OrderUpToPrefix(nodes: seq<TreeNode>, i: nat, j: nat)
    requires i <= j <= |nodes|
    ensures Prefix(OrderUpTo(nodes, i), OrderUpTo(nodes, j))
    decreases j - i
  {
    if i < j {
      OrderUpToPrefix(nodes, i, j - 1);
    }
  }

  /** The feature of every split node is in the order. */
  lemma InOrder(nodes: seq<TreeNode>, i: nat)
    requires i < |nodes| && !Leaf(nodes[i])
    ensures nodes[i].splitFeature in Order(nodes)
  {
    OrderUpToPrefix(nodes, i + 1, |nodes|);
    var on := OrderUpTo(nodes, i + 1);
    var q :| 0 <= q < |on| && on[q] == nodes[i].splitFeature;
    assert Order(nodes)[q] == on[q];
  }

  lemma OrderBelow(nodes: seq<TreeNode>, bound: nat)
    requires SplitFeaturesBelow(nodes, bound)
    ensures forall j :: 0 <= j < |Order(nodes)| ==> Order(nodes)[j] < bound
  {
    var o := Order(nodes);
    OrderMembers(nodes);
    forall j | 0 <= j < |o| ensures o[j] < bound {
      assert o[j] in o;
    }
  }

  /** The position of f in o. */
  function IndexOf(o: seq<nat>, f: nat): (r: nat)
    requires f in o
    ensures r < |o| && o[r] == f
    ensures forall j :: 0 <= j < r ==> o[j] != f
  {
    if o[0] == f then 0 else 1 + IndexOf(o[1..], f)
  }

  lemma IndexOfUnique(o: seq<nat>, f: nat, r: nat)
    requires r < |o| && o[r] == f
    requires forall j :: 0 <= j < r ==> o[j] != f
    ensures IndexOf(o, f) == r
  {
  }

  /** A feature has the same position in an order as in its prefixes. */
  lemma IndexOfPrefix(a: seq<nat>, b: seq<nat>, f: nat)
    requires Prefix(a, b) && f in a
    ensures f in b && IndexOf(b, f) == IndexOf(a, f)
  {
    var q := IndexOf(a, f);
    assert b[q] == a[q];
    IndexOfUnique(b, f, q);
  }

  /** 0, 1, ..., k - 1. */
  function Range(k: nat): (r: seq<nat>)
    ensures |r| == k && forall j :: 0 <= j < k ==> r[j] == j
  {
    seq(k, j => j)
  }

  /** A split node gets the position of its feature in o. */
  function Renumber(n: TreeNode, o: seq<nat>): TreeNode {
    if Leaf(n) || n.splitFeature !in o then n
    else n.(splitFeature := IndexOf(o, n.splitFeature))
  }

  function RenumberAll(nodes: seq<TreeNode>, o: seq<nat>): (r: seq<TreeNode>)
    ensures |r| == |nodes| && forall i :: 0 <= i < |nodes| ==> r[i] == Renumber(nodes[i], o)
  {
    seq(|nodes|, i requires 0 <= i < |nodes| => Renumber(nodes[i], o))
  }

  /** The nodes after pruning: split features renumbered densely in order
      of first appearance. */
  function Renumbered(nodes: seq<TreeNode>): seq<TreeNode> {
    RenumberAll(nodes, Order(nodes))
  }

  /** The feature names after pruning: the name of each used feature, at
      the feature's new index. */
  function PrunedNames(nodes: seq<TreeNode>, names: seq<string>): seq<string>
    requires SplitFeaturesBelow(nodes, |names|)
  {
    var o := Order(nodes);
    OrderBelow(nodes, |names|);
    seq(|o|, j requires 0 <= j < |o| => names[o[j]])
  }

  // ---------------------------------------------------------------------
  // Pruning of unused features: the properties.

  /** The map pruning grows while it scans the nodes: the features seen so
      far (oi), each with its position in the whole order o. */
  ghost predicate SelectedMatches(selected: map<nat, nat>, o: seq<nat>, oi: seq<nat>) {
    (forall f :: f in selected <==> f in oi) &&
    (forall f :: f in selected ==> f in o && selected[f] == IndexOf(o, f))
  }

  /** A feature seen for the first time gets the next free index, which is
      its place in the order. */
  lemma SelectNew(selected: map<nat, nat>, o: seq<nat>, oi: seq<nat>, f: nat)
    requires SelectedMatches(selected, o, oi) && |selected| == |oi| && f !in oi
    requires Prefix(oi + [f], o)
    ensures SelectedMatches(selected[f := |selected|], o, oi + [f])
  {
    assert o[|oi|] == (oi + [f])[|oi|];
    forall j | 0 <= j < |oi| ensures o[j] != f {
      assert o[j] == (oi + [f])[j];
    }
    IndexOfUnique(o, f, |oi|);
  }

  /** Renumbering the nodes by their order yields, over the first i nodes,
      features 0, 1, ... in order of first appearance. */
  lemma {:induction false} RenumberedOrderUpTo(nodes: seq<TreeNode>, i: nat)
    requires i <= |nodes|
    ensures OrderUpTo(RenumberAll(nodes, Order(nodes)), i) == Range(|OrderUpTo(nodes, i)|)
  {
    if i > 0 {
      RenumberedOrderUpTo(nodes, i - 1);
      if !Leaf(nodes[i - 1]) {
        RenumberedOrderStep(nodes, i - 1);
      }
    }
  }

  /** One split node of that induction: a feature seen before maps to an
      index already in the range, a new one to the next index. */
  lemma RenumberedOrderStep(nodes: seq<TreeNode>, i: nat)
    requires i < |nodes| && !Leaf(nodes[i])
    requires OrderUpTo(RenumberAll(nodes, Order(nodes)), i) == Range(|OrderUpTo(nodes, i)|)
    ensures OrderUpTo(RenumberAll(nodes, Order(nodes)), i + 1) == Range(|OrderUpTo(nodes, i + 1)|)
  {
    if nodes[i].splitFeature in OrderUpTo(nodes, i) {
      RenumberedOrderSeen(nodes, i);
    } else {
      RenumberedOrderNew(nodes, i);
    }
  }

  lemma RenumberedOrderSeen(nodes: seq<TreeNode>, i: nat)
    requires i < |nodes| && !Leaf(nodes[i])
    requires nodes[i].splitFeature in OrderUpTo(nodes, i)
    requires OrderUpTo(RenumberAll(nodes, Order(nodes)), i) == Range(|OrderUpTo(nodes, i)|)
    ensures OrderUpTo(RenumberAll(nodes, Order(nodes)), i + 1) == Range(|OrderUpTo(nodes, i + 1)|)
  {
    var o := Order(nodes);
    var r := RenumberAll(nodes, o);
    var f := nodes[i].splitFeature;
    var oi := OrderUpTo(nodes, i);
    InOrder(nodes, i);
    OrderUpToSeen(nodes, i);
    OrderUpToPrefix(nodes, i, |nodes|);
    IndexOfPrefix(oi, o, f);
    assert !Leaf(r[i]) && r[i].splitFeature == IndexOf(oi, f) < |oi|;
    assert Range(|oi|)[IndexOf(oi, f)] == r[i].splitFeature;
    OrderUpToSeen(r, i);
  }

  /** A split node with a feature seen before leaves the order as it is. */
  lemma OrderUpToSeen(nodes: seq<TreeNode>, i: nat)
    requires i < |nodes| && !Leaf(nodes[i]) && nodes[i].splitFeature in OrderUpTo(nodes, i)
    ensures OrderUpTo(nodes, i + 1) == OrderUpTo(nodes, i)
  {
  }

  lemma RenumberedOrderNew(nodes: seq<TreeNode>, i: nat)
    requires i < |nodes| && !Leaf(nodes[i])
    requires nodes[i].splitFeature !in OrderUpTo(nodes, i)
    requires OrderUpTo(RenumberAll(nodes, Order(nodes)), i) == Range(|OrderUpTo(nodes, i)|)
    ensures OrderUpTo(RenumberAll(nodes, Order(nodes)), i + 1) == Range(|OrderUpTo(nodes, i + 1)|)
  {
    var o := Order(nodes);
    var r := RenumberAll(nodes, o);
    var f := nodes[i].splitFeature;
    var oi := OrderUpTo(nodes, i);
    InOrder(nodes, i);
    OrderUpToNew(nodes, i);
    OrderUpToPrefix(nodes, i + 1, |nodes|);
    SelectNewIndex(oi, o, f);
    assert !Leaf(r[i]) && r[i].splitFeature == |oi|;
    RangeNext(|oi|);
    OrderUpToNew(r, i);
  }

  /** A split node with a feature not seen before appends it. */
  lemma OrderUpToNew(nodes: seq<TreeNode>, i: nat)
    requires i < |nodes| && !Leaf(nodes[i]) && nodes[i].splitFeature !in OrderUpTo(nodes, i)
    ensures OrderUpTo(nodes, i + 1) == OrderUpTo(nodes, i) + [nodes[i].splitFeature]
  {
  }

  lemma RangeNext(k: nat)
    ensures k !in Range(k) && Range(k) + [k] == Range(k + 1)
  {
    assert Range(k) + [k] == Range(k + 1);
  }

  lemma SelectNewIndex(oi: seq<nat>, o: seq<nat>, f: nat)
    requires Prefix(oi + [f], o)
    requires f !in oi
    ensures f in o && IndexOf(o, f) == |oi|
  {
    assert o[|oi|] == (oi + [f])[|oi|];
    forall j | 0 <= j < |oi| ensures o[j] != f {
      assert o[j] == (oi + [f])[j];
    }
    IndexOfUnique(o, f, |oi|);
  }

  /** What pruning does to the nodes: leaves are untouched, a split node
      changes only its split feature, the new features are exactly
      0, 1, ..., k - 1 in order of first appearance (k distinct features
      were used), and two split nodes share a new feature iff they shared
      the original one. */
  lemma RenumberedCorrect(nodes: seq<TreeNode>)
    ensures |Renumbered(nodes)| == |nodes|
    ensures forall i :: 0 <= i < |nodes| && Leaf(nodes[i]) ==> Renumbered(nodes)[i] == nodes[i]
    ensures forall i :: 0 <= i < |nodes| && !Leaf(nodes[i]) ==>
      Renumbered(nodes)[i] == nodes[i].(splitFeature := Renumbered(nodes)[i].splitFeature) &&
      Renumbered(nodes)[i].splitFeature < |Order(nodes)|
    ensures Order(Renumbered(nodes)) == Range(|Order(nodes)|)
    ensures forall i, j :: 0 <= i < |nodes| && 0 <= j < |nodes| && !Leaf(nodes[i]) && !Leaf(nodes[j]) ==>
      (Renumbered(nodes)[i].splitFeature == Renumbered(nodes)[j].splitFeature <==>
       nodes[i].splitFeature == nodes[j].splitFeature)
  {
    RenumberedOrderUpTo(nodes, |nodes|);
    forall i | 0 <= i < |nodes| && !Leaf(nodes[i]) ensures nodes[i].splitFeature in Order(nodes) {
      InOrder(nodes, i);
    }
  }

  /** What pruning does to the feature names: one name per distinct used
      feature, and each split node's new feature names what its original
      feature named. */
  lemma PrunedNamesCorrect(nodes: seq<TreeNode>, names: seq<string>)
    requires SplitFeaturesBelow(nodes, |names|)
    ensures |PrunedNames(nodes, names)| == |Order(nodes)|
    ensures forall i :: 0 <= i < |nodes| && !Leaf(nodes[i]) ==>
      Renumbered(nodes)[i].splitFeature < |PrunedNames(nodes, names)| &&
      PrunedNames(nodes, names)[Renumbered(nodes)[i].splitFeature] == names[nodes[i].splitFeature]
  {
    RenumberedCorrect(nodes);
    forall i | 0 <= i < |nodes| && !Leaf(nodes[i])
      ensures PrunedNames(nodes, names)[Renumbered(nodes)[i].splitFeature] == names[nodes[i].splitFeature]
    {
      InOrder(nodes, i);
    }
  }

  /** After pruning, every split feature is in range of the new names. */
  lemma PrunedInRange(nodes: seq<TreeNode>, names: seq<string>)
    requires SplitFeaturesBelow(nodes, |names|)
    ensures SplitFeaturesBelow(Renumbered(nodes), |PrunedNames(nodes, names)|)
  {
    RenumberedCorrect(nodes);
    PrunedNamesCorrect(nodes, names);
  }

  /** Pruning twice is pruning once. */
  lemma PruneIdempotent(nodes: seq<TreeNode>, names: seq<string>)
    requires SplitFeaturesBelow(nodes, |names|)
    ensures SplitFeaturesBelow(Renumbered(nodes), |PrunedNames(nodes, names)|)
    ensures Renumbered(Renumbered(nodes)) == Renumbered(nodes)
    ensures PrunedNames(Renumbered(nodes), PrunedNames(nodes, names)) == PrunedNames(nodes, names)
  {
    PrunedInRange(nodes, names);
    RenumberedCorrect(nodes);
    var r := Renumbered(nodes);
    var k := |Order(nodes)|;
    forall i | 0 <= i < |r| ensures Renumber(r[i], Range(k)) == r[i] {
      if !Leaf(r[i]) {
        IndexOfUnique(Range(k), r[i].splitFeature, r[i].splitFeature);
      }
    }
  }

  // ---------------------------------------------------------------------
  // Trees.

  /** The first loop of pruning: a map from each used feature to the next
      free index, grown in order of first appearance, with every split node
      given its feature's new index. */
  method SelectFeatureIndices(nodes: seq<TreeNode>) returns (renumbered: seq<TreeNode>, selected: map<nat, nat>)
    ensures renumbered == Renumbered(nodes)
    ensures selected == SelectedUpTo(nodes, |nodes|)
  {
    ghost var o := Order(nodes);
    renumbered := nodes;
    selected := map[];
    var i := 0;
    while i < |renumbered|
      invariant 0 <= i <= |renumbered| == |nodes|
      invariant selected == SelectedUpTo(nodes, i)
      invariant forall j :: 0 <= j < i ==> renumbered[j] == Renumber(nodes[j], o)
      invariant forall j :: i <= j < |renumbered| ==> renumbered[j] == nodes[j]
    {
      var node := renumbered[i];
      if !Leaf(node) {
        var e := Emplace(selected, node.splitFeature, |selected|);
        SelectedIndex(nodes, i);
        selected := e.0;
        renumbered := renumbered[i := node.(splitFeature := e.1)];
      }
      i := i + 1;
    }
  }

  /** The feature map after the first i nodes. */
  function SelectedUpTo(nodes: seq<TreeNode>, i: nat): map<nat, nat>
    requires i <= |nodes|
  {
    if i == 0 then map[]
    else
      var m := SelectedUpTo(nodes, i - 1);
      if Leaf(nodes[i - 1]) then m else Emplace(m, nodes[i - 1].splitFeature, |m|).0
  }

  lemma {:induction false} SelectedUpToMatches(nodes: seq<TreeNode>, i: nat)
    requires i <= |nodes|
    ensures SelectedMatches(SelectedUpTo(nodes, i), Order(nodes), OrderUpTo(nodes, i))

    decreases i, 1
  {
    if i > 0 {
      SelectedUpToMatches(nodes, i - 1);
      if !Leaf(nodes[i - 1]) {
        SelectedUpToSize(nodes, i - 1);
        SelectStep(nodes, i - 1, SelectedUpTo(nodes, i - 1));
      }
    }
  }

  /** The map has one entry per feature the scan has seen. */
  lemma {:induction false} SelectedUpToSize(nodes: seq<TreeNode>, i: nat)
    requires i <= |nodes|
    ensures |SelectedUpTo(nodes, i)| == |OrderUpTo(nodes, i)|
    decreases i, 0
  {
    if i > 0 {
      SelectedUpToSize(nodes, i - 1);
      SelectedUpToMatches(nodes, i - 1);
    }
  }

  /** The index the scan gives a split node is its feature's position in
      the order. */
  lemma SelectedIndex(nodes: seq<TreeNode>, i: nat)
    requires i < |nodes| && !Leaf(nodes[i])
    ensures Renumber(nodes[i], Order(nodes)) == nodes[i].(splitFeature :=
      Emplace(SelectedUpTo(nodes, i), nodes[i].splitFeature, |SelectedUpTo(nodes, i)|).1)
  {
    SelectedUpToMatches(nodes, i);
    SelectedUpToSize(nodes, i);
    SelectStep(nodes, i, SelectedUpTo(nodes, i));
  }

  /** An insertion that keeps an existing entry, and the value the key then
      maps to. */
  function Emplace(m: map<nat, nat>, k: nat, v: nat): (r: (map<nat, nat>, nat))
    ensures k in r.0 && r.1 == r.0[k]
    ensures k in m ==> r.0 == m
    ensures k !in m ==> r.0 == m[k := v]
  {
    if k in m then (m, m[k]) else (m[k := v], v)
  }

  /** One split node of the scan: its feature keeps the index it was given
      when first seen, or takes the next free one, which is in both cases
      its position in the order. */
  lemma SelectStep(nodes: seq<TreeNode>, i: nat, selected: map<nat, nat>)
    requires i < |nodes| && !Leaf(nodes[i]) && selected == SelectedUpTo(nodes, i)
    requires SelectedMatches(selected, Order(nodes), OrderUpTo(nodes, i))
    requires |selected| == |OrderUpTo(nodes, i)|
    ensures SelectedMatches(SelectedUpTo(nodes, i + 1), Order(nodes), OrderUpTo(nodes, i + 1))
    ensures Renumber(nodes[i], Order(nodes)) ==
      nodes[i].(splitFeature := Emplace(selected, nodes[i].splitFeature, |selected|).1)
  {
    if nodes[i].splitFeature !in selected {
      SelectStepNew(nodes, i, selected);
    } else {
      SelectStepSeen(nodes, i, selected);
    }
    SelectStepIndex(nodes, i, selected);
  }

  lemma SelectStepNew(nodes: seq<TreeNode>, i: nat, selected: map<nat, nat>)
    requires i < |nodes| && !Leaf(nodes[i]) && selected == SelectedUpTo(nodes, i)
    requires SelectedMatches(selected, Order(nodes), OrderUpTo(nodes, i))
    requires |selected| == |OrderUpTo(nodes, i)|
    requires nodes[i].splitFeature !in selected
    ensures SelectedMatches(SelectedUpTo(nodes, i + 1), Order(nodes), OrderUpTo(nodes, i + 1))
  {
    var f := nodes[i].splitFeature;
    InOrder(nodes, i);
    OrderUpToPrefix(nodes, i + 1, |nodes|);
    assert OrderUpTo(nodes, i + 1) == OrderUpTo(nodes, i) + [f];
    assert SelectedUpTo(nodes, i + 1) == selected[f := |selected|];
    SelectNew(selected, Order(nodes), OrderUpTo(nodes, i), f);
  }

  lemma SelectStepSeen(nodes: seq<TreeNode>, i: nat, selected: map<nat, nat>)
    requires i < |nodes| && !Leaf(nodes[i]) && selected == SelectedUpTo(nodes, i)
    requires SelectedMatches(selected, Order(nodes), OrderUpTo(nodes, i))
    requires nodes[i].splitFeature in selected
    ensures SelectedMatches(SelectedUpTo(nodes, i + 1), Order(nodes), OrderUpTo(nodes, i + 1))
  {
    assert OrderUpTo(nodes, i + 1) == OrderUpTo(nodes, i);
    assert SelectedUpTo(nodes, i + 1) == selected;
  }

  lemma SelectStepIndex(nodes: seq<TreeNode>, i: nat, selected: map<nat, nat>)
    requires i < |nodes| && !Leaf(nodes[i])
    requires SelectedMatches(selected, Order(nodes), OrderUpTo(nodes, i))
    requires |selected| == |OrderUpTo(nodes, i)|
    ensures Renumber(nodes[i], Order(nodes)) ==
      nodes[i].(splitFeature := Emplace(selected, nodes[i].splitFeature, |selected|).1)
  {
    var f := nodes[i].splitFeature;
    var o := Order(nodes);
    InOrder(nodes, i);
    var v := Emplace(selected, f, |selected|).1;
    if f in selected {
      assert v == IndexOf(o, f);
    } else {
      var oi := OrderUpTo(nodes, i);
      assert f !in oi;
      OrderUpToPrefix(nodes, i + 1, |nodes|);
      assert OrderUpTo(nodes, i + 1) == oi + [f];
      SelectNewIndex(oi, o, f);
    }
    RenumberAt(nodes[i], o, v);
  }

  lemma RenumberAt(n: TreeNode, o: seq<nat>, v: nat)
    requires !Leaf(n) && n.splitFeature in o && IndexOf(o, n.splitFeature) == v
    ensures Renumber(n, o) == n.(splitFeature := v)
  {
  }

  /** The second loop of pruning: each used feature's name moved to the
      feature's new index, visiting the map in an unspecified order. */
  method PlaceSelectedNames(ghost nodes: seq<TreeNode>, names: seq<string>, selected: map<nat, nat>)
    returns (newNames: seq<string>)
    requires SplitFeaturesBelow(nodes, |names|)
    requires selected == SelectedUpTo(nodes, |nodes|)
    ensures newNames == PrunedNames(nodes, names)
  {
    ghost var o := Order(nodes);
    SelectedInverse(nodes);
    OrderBelow(nodes, |names|);
    newNames := seq(|selected|, _ => "");
    var pending := selected.Keys;
    while pending != {}
      invariant pending <= selected.Keys
      invariant |newNames| == |selected| == |o|
      invariant forall f :: f in selected.Keys - pending ==> newNames[selected[f]] == names[f]
      decreases |pending|
    {
      var f :| f in pending;
      forall g | g in selected.Keys - pending ensures selected[g] != selected[f] {
        assert o[selected[g]] == g && o[selected[f]] == f;
      }
      newNames := newNames[selected[f] := names[f]];
      pending := pending - {f};
    }
  }

  /** After the scan, the map and the order are inverse to each other. */
  lemma SelectedInverse(nodes: seq<TreeNode>)
    ensures |SelectedUpTo(nodes, |nodes|)| == |Order(nodes)|
    ensures forall f :: f in SelectedUpTo(nodes, |nodes|) ==>
      SelectedUpTo(nodes, |nodes|)[f] < |Order(nodes)| && Order(nodes)[SelectedUpTo(nodes, |nodes|)[f]] == f
    ensures forall j :: 0 <= j < |Order(nodes)| ==>
      Order(nodes)[j] in SelectedUpTo(nodes, |nodes|) && SelectedUpTo(nodes, |nodes|)[Order(nodes)[j]] == j
  {
    var o := Order(nodes);
    SelectedUpToMatches(nodes, |nodes|);
    SelectedUpToSize(nodes, |nodes|);
    forall j | 0 <= j < |o| ensures SelectedUpTo(nodes, |nodes|)[o[j]] == j {
      assert o[j] in o;
      IndexOfUnique(o, o[j], j);
    }
  }

  class Tree {
    var featureNames: seq<string>
    var targetType: TargetType
    var classificationLabels: Option<seq<string>>
    var classificationWeights: Option<seq<real>>
    var nodes: seq<TreeNode>

    constructor (nodes: seq<TreeNode>, featureNames: seq<string>, targetType: TargetType)
      ensures this.nodes == nodes && this.featureNames == featureNames
      ensures this.targetType == targetType
      ensures classificationLabels == None && classificationWeights == None
    {
      this.nodes := nodes;
      this.featureNames := featureNames;
      this.targetType := targetType;
      classificationLabels := None;
      classificationWeights := None;
    }

    method SetFeatureNames(names: seq<string>)
      modifies this
      ensures featureNames == names
      ensures nodes == old(nodes) && targetType == old(targetType)
      ensures classificationLabels == old(classificationLabels)
      ensures classificationWeights == old(classificationWeights)
    {
      featureNames := names;
    }

    method SetTargetType(t: TargetType)
      modifies this
      ensures targetType == t
      ensures nodes == old(nodes) && featureNames == old(featureNames)
      ensures classificationLabels == old(classificationLabels)
      ensures classificationWeights == old(classificationWeights)
    {
      targetType := t;
    }

    method SetClassificationLabels(labels: seq<string>)
      modifies this
      ensures classificationLabels == Some(labels)
      ensures nodes == old(nodes) && featureNames == old(featureNames)
      ensures targetType == old(targetType)
      ensures classificationWeights == old(classificationWeights)
    {
      classificationLabels := Some(labels);
    }

    method SetClassificationWeights(weights: seq<real>)
      modifies this
      ensures classificationWeights == Some(weights)
      ensures nodes == old(nodes) && featureNames == old(featureNames)
      ensures targetType == old(targetType)
      ensures classificationLabels == old(classificationLabels)
    {
      classificationWeights := Some(weights);
    }

    /** Renumbers the split features densely in order of first appearance
        and keeps only the names of the features still used. */
    method RemoveUnusedFeatures() returns (names: seq<string>)
      requires SplitFeaturesBelow(nodes, |featureNames|)
      modifies this
      ensures nodes == Renumbered(old(nodes))
      ensures featureNames == PrunedNames(old(nodes), old(featureNames))
      ensures names == featureNames
      ensures targetType == old(targetType)
      ensures classificationLabels == old(classificationLabels)
      ensures classificationWeights == old(classificationWeights)
    {
      var ns, selected := SelectFeatureIndices(nodes);
      var newNames := PlaceSelectedNames(nodes, featureNames, selected);
      nodes := ns;
      featureNames := newNames;
      names := featureNames;
    }
  }

  /** The number of leaves among the nodes. */
  function LeafCount(nodes: seq<TreeNode>): (r: nat)
    ensures r <= |nodes|
    ensures r == 0 <==> forall i :: 0 <= i < |nodes| ==> !Leaf(nodes[i])
    ensures r == |nodes| <==> forall i :: 0 <= i < |nodes| ==> Leaf(nodes[i])
    decreases |nodes|
  {
    if |nodes| == 0 then 0
    else
      var init := nodes[..|nodes| - 1];
      assert forall i :: 0 <= i < |init| ==> init[i] == nodes[i];
      LeafCount(init) + if Leaf(nodes[|nodes| - 1]) then 1 else 0
  }

  /** The size-information counts of a tree: split nodes and leaves. */
  method CountNodesAndLeaves(nodes: seq<TreeNode>) returns (numNodes: nat, numLeaves: nat)
    ensures numLeaves == LeafCount(nodes)
    ensures numNodes + numLeaves == |nodes|
  {
    numNodes, numLeaves := 0, 0;
    for i := 0 to |nodes|
      invariant numLeaves == LeafCount(nodes[..i])
      invariant numNodes + numLeaves == i
    {
      assert nodes[..i + 1][..i] == nodes[..i];
      if Leaf(nodes[i]) {
        numLeaves := numLeaves + 1;
      } else {
        numNodes := numNodes + 1;
      }
    }
    assert nodes[..|nodes|] == nodes;
  }

  function Pow2(k: nat): (r: nat)
    ensures r >= 1
  {
    if k == 0 then 1 else 2 * Pow2(k - 1)
  }

  /** The least k with 2^k >= m: the integer value of ceil(log2(m)). */
  function CeilLog2(m: nat): (k: nat)
    requires m >= 1
    ensures Pow2(k) >= m
    ensures k == 0 || Pow2(k - 1) < m
    decreases m
  {
    if m == 1 then 0
    else
      var k := 1 + CeilLog2((m + 1) / 2);
      assert k - 1 == 0 || Pow2(k - 2) < (m + 1) / 2;
      k
  }

  /** A tree's operation estimate: ceil(log2(nodes + leaves + 1)). */
  method TreeNumOperations(nodes: seq<TreeNode>) returns (r: nat)
    ensures Pow2(r) >= |nodes| + 1
    ensures r == 0 || Pow2(r - 1) < |nodes| + 1
  {
    var numNodes, numLeaves := CountNodesAndLeaves(nodes);
    r := CeilLog2(numNodes + numLeaves + 1);
  }

  // ---------------------------------------------------------------------
  // Ensembles.

  /** The state of one tree: what pruning rewrites, and its target type
      and classification labels and weights, which pruning leaves alone. */
  datatype TreeState = TreeState(nodes: seq<TreeNode>, featureNames: seq<string>, targetType: TargetType,
                                 labels: Option<seq<string>>, weights: Option<seq<real>>)

  predicate Prunable(s: TreeState) {
    SplitFeaturesBelow(s.nodes, |s.featureNames|)
  }

  /** The union of the names the first i trees keep after pruning. */
  function PrunedUnionUpTo(states: seq<TreeState>, i: nat): set<string>
    requires i <= |states|
    requires forall j :: 0 <= j < |states| ==> Prunable(states[j])
  {
    if i == 0 then {}
    else
      var last := states[i - 1];
      assert Prunable(last);
      PrunedUnionUpTo(states, i - 1) + Elems(PrunedNames(last.nodes, last.featureNames))
  }

  function PrunedUnion(states: seq<TreeState>): set<string>
    requires forall j :: 0 <= j < |states| ==> Prunable(states[j])
  {
    PrunedUnionUpTo(states, |states|)
  }

  function StatesOf(trees: seq<Tree>): (r: seq<TreeState>)
    reads set t | t in trees
    ensures |r| == |trees|
    ensures forall i :: 0 <= i < |trees| ==> r[i] == StateOf(trees[i])
  {
    seq(|trees|, i reads trees requires 0 <= i < |trees| => StateOf(trees[i]))
  }

  function StateOf(t: Tree): TreeState
    reads t
  {
    TreeState(t.nodes, t.featureNames, t.targetType, t.classificationLabels, t.classificationWeights)
  }

  /** The operation estimates of the first i trees, summed. */
  function OperationsUpTo(trees: seq<TreeState>, i: nat): nat
    requires i <= |trees|
  {
    if i == 0 then 0
    else OperationsUpTo(trees, i - 1) + CeilLog2(|trees[i - 1].nodes| + 1)
  }

  function OperationsSum(trees: seq<TreeState>): nat {
    OperationsUpTo(trees, |trees|)
  }

  /** A tree's state after pruning. */
  function PrunedState(s: TreeState): (r: TreeState)
    requires Prunable(s)
  {
    s.(nodes := Renumbered(s.nodes), featureNames := PrunedNames(s.nodes, s.featureNames))
  }

  /** The states with the first i pruned and the rest as they were. */
  function PrunedPrefix(states: seq<TreeState>, i: nat): (r: seq<TreeState>)
    requires i <= |states|
    requires forall j :: 0 <= j < |states| ==> Prunable(states[j])
    ensures |r| == |states|
    ensures forall j :: 0 <= j < i ==> r[j] == PrunedState(states[j])
    ensures forall j :: i <= j < |states| ==> r[j] == states[j]
  {
    seq(|states|, j requires 0 <= j < |states| && Prunable(states[j]) =>
      if j < i then PrunedState(states[j]) else states[j])
  }

  lemma PrunedPrefixStep(states: seq<TreeState>, i: nat)
    requires i < |states|
    requires forall j :: 0 <= j < |states| ==> Prunable(states[j])
    ensures PrunedPrefix(states, i)[i := PrunedState(states[i])] == PrunedPrefix(states, i + 1)
  {
  }

  /** Prunes each tree in turn and returns the union of the names they
      kept. */
  method PruneMembers(ts: seq<Tree>) returns (union: set<string>)
    requires Distinct(ts)
    requires forall t :: t in ts ==> SplitFeaturesBelow(t.nodes, |t.featureNames|)
    modifies set t | t in ts
    ensures forall j :: 0 <= j < |ts| ==> Prunable(old(StatesOf(ts))[j])
    ensures union == PrunedUnion(old(StatesOf(ts)))
    ensures StatesOf(ts) == PrunedPrefix(old(StatesOf(ts)), |ts|)
  {
    ghost var before := StatesOf(ts);
    forall j | 0 <= j < |ts|
      ensures Prunable(before[j])
    {
      assert ts[j] in ts;
    }
    union := {};
    for i := 0 to |ts|
      invariant union == PrunedUnionUpTo(before, i)
      invariant StatesOf(ts) == PrunedPrefix(before, i)
    {
      var kept := PruneOne(ts, i);
      union := union + Elems(kept);
      PrunedPrefixStep(before, i);
    }
  }

  /** One turn of the pruning loop: tree i is pruned and the names it
      kept are returned; no other tree changes. */
  method PruneOne(ts: seq<Tree>, i: nat) returns (kept: seq<string>)
    requires i < |ts| && Distinct(ts)
    requires Prunable(StatesOf(ts)[i])
    modifies ts[i]
    ensures StatesOf(ts) == old(StatesOf(ts))[i := PrunedState(old(StatesOf(ts))[i])]
    ensures kept == PrunedState(old(StatesOf(ts))[i]).featureNames
  {
    kept := ts[i].RemoveUnusedFeatures();
    forall j | 0 <= j < |ts| && j != i
      ensures StateOf(ts[j]) == old(StateOf(ts[j]))
    {
      assert ts[j] != ts[i];
    }
  }

  /** The elements of a set, each once, in the set's own iteration order. */
  method CopyOut(s: set<string>) returns (r: seq<string>)
    ensures Elems(r) == s && Distinct(r)
  {
    r := [];
    var rest := s;
    while rest != {}
      invariant rest <= s
      invariant Elems(r) + rest == s
      invariant Distinct(r)
      invariant forall x :: x in r ==> x !in rest
      decreases |rest|
    {
      var x :| x in rest;
      r := r + [x];
      rest := rest - {x};
    }
  }

  class Ensemble {
    var featureNames: seq<string>
    var targetType: TargetType
    var classificationLabels: Option<seq<string>>
    var classificationWeights: Option<seq<real>>
    var trees: seq<Tree>
    var aggregateOutput: Option<AggregateOutput>

    /** Every member is owned by the ensemble once. */
    ghost predicate Valid()
      reads this
    {
      Distinct(trees)
    }

    constructor (trees: seq<Tree>, aggregateOutput: AggregateOutput, targetType: TargetType)
      requires Distinct(trees)
      ensures Valid()
      ensures this.trees == trees && this.aggregateOutput == Some(aggregateOutput)
      ensures this.targetType == targetType && featureNames == []
      ensures classificationLabels == None && classificationWeights == None
    {
      this.trees := trees;
      this.aggregateOutput := Some(aggregateOutput);
      this.targetType := targetType;
      featureNames := [];
      classificationLabels := None;
      classificationWeights := None;
    }

    function Size(): nat
      reads this
    {
      |trees|
    }

    /** Sets the feature names of the ensemble and of every member. */
    method SetFeatureNames(names: seq<string>)
      requires Valid()
      modifies this, set t | t in trees
      ensures trees == old(trees) && Valid()
      ensures featureNames == names
      ensures forall t :: t in trees ==> t.featureNames == names
      ensures forall t :: t in trees ==> (t.nodes == old(t.nodes) && t.targetType == old(t.targetType)
        && t.classificationLabels == old(t.classificationLabels)
        && t.classificationWeights == old(t.classificationWeights))
      ensures targetType == old(targetType) && aggregateOutput == old(aggregateOutput)
      ensures classificationLabels == old(classificationLabels)
      ensures classificationWeights == old(classificationWeights)
    {
      featureNames := names;
      var ts := trees;
      for i := 0 to |ts|
        modifies set t | t in ts
        invariant forall j :: 0 <= j < i ==> ts[j].featureNames == names
        invariant forall t :: t in ts ==> (t.nodes == old(t.nodes) && t.targetType == old(t.targetType)
          && t.classificationLabels == old(t.classificationLabels)
          && t.classificationWeights == old(t.classificationWeights))
      {
        ts[i].SetFeatureNames(names);
      }
    }

    /** Sets the target type of the ensemble and of every member. */
    method SetTargetType(tt: TargetType)
      requires Valid()
      modifies this, set t | t in trees
      ensures trees == old(trees) && Valid()
      ensures targetType == tt
      ensures forall t :: t in trees ==> t.targetType == tt
      ensures forall t :: t in trees ==> (t.nodes == old(t.nodes) && t.featureNames == old(t.featureNames)
        && t.classificationLabels == old(t.classificationLabels)
        && t.classificationWeights == old(t.classificationWeights))
      ensures featureNames == old(featureNames) && aggregateOutput == old(aggregateOutput)
      ensures classificationLabels == old(classificationLabels)
      ensures classificationWeights == old(classificationWeights)
    {
      targetType := tt;
      var ts := trees;
      for i := 0 to |ts|
        modifies set t | t in ts
        invariant forall j :: 0 <= j < i ==> ts[j].targetType == tt
        invariant forall t :: t in ts ==> (t.nodes == old(t.nodes) && t.featureNames == old(t.featureNames)
          && t.classificationLabels == old(t.classificationLabels)
          && t.classificationWeights == old(t.classificationWeights))
      {
        ts[i].SetTargetType(tt);
      }
    }

    /** Sets the classification labels of the ensemble and of every member. */
    method SetClassificationLabels(labels: seq<string>)
      requires Valid()
      modifies this, set t | t in trees
      ensures trees == old(trees) && Valid()
      ensures classificationLabels == Some(labels)
      ensures forall t :: t in trees ==> t.classificationLabels == Some(labels)
      ensures forall t :: t in trees ==> (t.nodes == old(t.nodes) && t.featureNames == old(t.featureNames)
        && t.targetType == old(t.targetType)
        && t.classificationWeights == old(t.classificationWeights))
      ensures featureNames == old(featureNames) && aggregateOutput == old(aggregateOutput)
      ensures targetType == old(targetType)
      ensures classificationWeights == old(classificationWeights)
    {
      classificationLabels := Some(labels);
      var ts := trees;
      for i := 0 to |ts|
        modifies set t | t in ts
        invariant forall j :: 0 <= j < i ==> ts[j].classificationLabels == Some(labels)
        invariant forall t :: t in ts ==> (t.nodes == old(t.nodes) && t.featureNames == old(t.featureNames)
          && t.targetType == old(t.targetType)
          && t.classificationWeights == old(t.classificationWeights))
      {
        ts[i].SetClassificationLabels(labels);
      }
    }

    /** Sets the classification weights of every member, then of the
        ensemble. */
    method SetClassificationWeights(weights: seq<real>)
      requires Valid()
      modifies this, set t | t in trees
      ensures trees == old(trees) && Valid()
      ensures classificationWeights == Some(weights)
      ensures forall t :: t in trees ==> t.classificationWeights == Some(weights)
      ensures forall t :: t in trees ==> (t.nodes == old(t.nodes) && t.featureNames == old(t.featureNames)
        && t.targetType == old(t.targetType)
        && t.classificationLabels == old(t.classificationLabels))
      ensures featureNames == old(featureNames) && aggregateOutput == old(aggregateOutput)
      ensures targetType == old(targetType)
      ensures classificationLabels == old(classificationLabels)
    {
      var ts := trees;
      for i := 0 to |ts|
        modifies set t | t in ts
        invariant forall j :: 0 <= j < i ==> ts[j].classificationWeights == Some(weights)
        invariant forall t :: t in ts ==> (t.nodes == old(t.nodes) && t.featureNames == old(t.featureNames)
          && t.targetType == old(t.targetType)
          && t.classificationLabels == old(t.classificationLabels))
      {
        ts[i].SetClassificationWeights(weights);
      }
      classificationWeights := Some(weights);
    }

    /** Swaps in a new aggregate output; the previous one is handed back. */
    method SwapAggregateOutput(a: Option<AggregateOutput>) returns (previous: Option<AggregateOutput>)
      modifies this
      ensures aggregateOutput == a && previous == old(aggregateOutput)
      ensures trees == old(trees) && featureNames == old(featureNames)
      ensures targetType == old(targetType)
      ensures classificationLabels == old(classificationLabels)
      ensures classificationWeights == old(classificationWeights)
    {
      previous := aggregateOutput;
      aggregateOutput := a;
    }

    /** Prunes every member, then stores on the ensemble (and only there)
        the sorted union of the names the members kept. */
    method RemoveUnusedFeatures() returns (names: seq<string>)
      requires Valid()
      requires forall t :: t in trees ==> SplitFeaturesBelow(t.nodes, |t.featureNames|)
      modifies this, set t | t in trees
      ensures trees == old(trees) && Valid()
      ensures StrictlySorted(names)
      ensures Elems(names) == PrunedUnion(old(StatesOf(trees)))
      ensures featureNames == names
      ensures StatesOf(trees) == PrunedPrefix(old(StatesOf(trees)), |trees|)
      ensures targetType == old(targetType) && aggregateOutput == old(aggregateOutput)
      ensures classificationLabels == old(classificationLabels)
      ensures classificationWeights == old(classificationWeights)
    {
      var union := PruneMembers(trees);
      var selected := CopyOut(union);
      names := SortStrings(selected);
      SortStringsCorrect(selected);
      featureNames := names;
    }

    /** The ensemble's operation estimate: the sum of its members'. */
    method NumOperations() returns (r: nat)
      ensures r == OperationsSum(StatesOf(trees))
    {
      var ts := trees;
      ghost var states := StatesOf(ts);
      r := 0;
      for i := 0 to |ts|
        invariant r == OperationsUpTo(states, i)
      {
        var ops := TreeNumOperations(ts[i].nodes);
        assert ts[i].nodes == states[i].nodes;
        OperationsStep(states, i, ops);
        r := r + ops;
      }
    }
  }

  lemma Pow2Monotone(a: nat, b: nat)
    requires a <= b
    ensures Pow2(a) <= Pow2(b)
    decreases b
  {
    if a < b {
      Pow2Monotone(a, b - 1);
    }
  }

  /** One more tree: its own estimate is added to the sum. */
  lemma OperationsStep(states: seq<TreeState>, i: nat, ops: nat)
    requires i < |states|
    requires Pow2(ops) >= |states[i].nodes| + 1
    requires ops == 0 || Pow2(ops - 1) < |states[i].nodes| + 1
    ensures OperationsUpTo(states, i + 1) == OperationsUpTo(states, i) + ops
  {
    CeilLog2Unique(ops, |states[i].nodes| + 1);
  }

  /** The least k with 2^k >= m is unique. */
  lemma CeilLog2Unique(k: nat, m: nat)
    requires m >= 1
    requires Pow2(k) >= m && (k == 0 || Pow2(k - 1) < m)
    ensures k == CeilLog2(m)
  {
    var c := CeilLog2(m);
    if k < c {
      Pow2Monotone(k, c - 1);
    } else if c < k {
      Pow2Monotone(c, k - 1);
    }
  }
}
