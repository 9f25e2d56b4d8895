/** The JSON stream an inference model definition writes: the sequence of
    writer events each addToJsonStream method issues, stated as the
    serialisation of a JSON value, so that what each method writes is a
    well-formed member, object or array with its keys in a fixed order. */
module ModelJson {
  import opened Util
  import opened JsonTokens
  import opened InferenceModel

  // Tags of the model definition format.
  const AGGREGATE_OUTPUT := "aggregate_output"
  const CLASSIFICATION_LABELS := "classification_labels"
  const CLASSIFICATION_WEIGHTS := "classification_weights"
  const DECISION_TYPE := "decision_type"
  const DEFAULT_LEFT := "default_left"
  const DEFAULT_VALUE := "default_value"
  const ENSEMBLE := "ensemble"
  const EXPONENT := "exponent"
  const FEATURE_NAME := "feature_name"
  const FEATURE_NAMES := "feature_names"
  const FIELD := "field"
  const FREQUENCY_ENCODING := "frequency_encoding"
  const FREQUENCY_MAP := "frequency_map"
  const HOT_MAP := "hot_map"
  const LEAF_VALUE := "leaf_value"
  const LEFT_CHILD := "left_child"
  const LOGISTIC_REGRESSION := "logistic_regression"
  const LT := "lt"
  const NODE_INDEX := "node_index"
  const NUMBER_SAMPLES := "number_samples"
  const ONE_HOT_ENCODING := "one_hot_encoding"
  const PREPROCESSORS := "preprocessors"
  const RIGHT_CHILD := "right_child"
  const SPLIT_FEATURE := "split_feature"
  const SPLIT_GAIN := "split_gain"
  const TARGET_MAP := "target_map"
  const TARGET_MEAN_ENCODING := "target_mean_encoding"
  const TARGET_TYPE_CLASSIFICATION := "classification"
  const TARGET_TYPE_REGRESSION := "regression"
  const TARGET_TYPE := "target_type"
  const THRESHOLD := "threshold"
  const TRAINED_MODEL := "trained_model"
  const TRAINED_MODELS := "trained_models"
  const TREE := "tree"
  const TREE_STRUCTURE := "tree_structure"
  const WEIGHTED_MODE := "weighted_mode"
  const WEIGHTED_SUM := "weighted_sum"
  const WEIGHTS := "weights"

  // ---------------------------------------------------------------------
  // What is written: the fields of a tree, an ensemble and a definition.

  datatype TreeData = TreeData(
    featureNames: seq<string>,
    classificationLabels: Option<seq<string>>,
    classificationWeights: Option<seq<real>>,
    targetType: TargetType,
    nodes: seq<TreeNode>)

  datatype EnsembleData = EnsembleData(
    featureNames: seq<string>,
    classificationLabels: Option<seq<string>>,
    classificationWeights: Option<seq<real>>,
    targetType: TargetType,
    members: seq<TreeData>,
    aggregate: AggregateOutput)

  datatype ModelData = TreeModel(tree: TreeData) | EnsembleModel(ensemble: EnsembleData)

  /** A preprocessor. The maps are hash maps; each is given as its entries
      in the map's iteration order. */
  datatype Encoding =
    | TargetMean(field: string, defaultValue: real, featureName: string, targetMap: seq<(string, real)>)
    | Frequency(field: string, featureName: string, frequencyMap: seq<(string, real)>)
    | OneHot(field: string, hotMap: seq<(string, string)>)

  /** A definition: custom preprocessors held as opaque JSON documents,
      the ordinary preprocessors and, if set, the trained model. */
  datatype Definition = Definition(
    customPreprocessors: seq<Json>,
    preprocessors: seq<Encoding>,
    trainedModel: Option<ModelData>)


  // ---------------------------------------------------------------------
  // The JSON value each writer method serialises.

  function DoublesJson(vs: seq<real>): (r: seq<Json>)
    ensures |r| == |vs| && forall i :: 0 <= i < |vs| ==> r[i] == JDouble(vs[i])
  {
    seq(|vs|, i requires 0 <= i < |vs| => JDouble(vs[i]))
  }

  function StringsJson(ss: seq<string>): (r: seq<Json>)
    ensures |r| == |ss| && forall i :: 0 <= i < |ss| ==> r[i] == JString(ss[i])
  {
    seq(|ss|, i requires 0 <= i < |ss| => JString(ss[i]))
  }

  /** What writing a node reads without a check: a split node's right
      child and a leaf's first value. */
  predicate NodeWritable(n: TreeNode) {
    (Leaf(n) ==> |n.leafValue| >= 1) && (!Leaf(n) ==> n.rightChild.Some?)
  }

  predicate NodesWritable(nodes: seq<TreeNode>) {
    forall i :: 0 <= i < |nodes| ==> NodeWritable(nodes[i])
  }

  function NodeMembers(n: TreeNode): seq<Member>
    requires NodeWritable(n)
  {
    [Member(NODE_INDEX, JUint(n.nodeIndex)), Member(NUMBER_SAMPLES, JUint(n.numberSamples))] +
    if !Leaf(n) then SplitMembers(n)
    else if |n.leafValue| > 1 then
      [Member(LEAF_VALUE, JArray(DoublesJson(n.leafValue)))]
    else
      [Member(LEAF_VALUE, JDouble(n.leafValue[0]))]
  }

  /** What a split node writes after its index and sample count. */
  function SplitMembers(n: TreeNode): seq<Member>
    requires NodeWritable(n) && !Leaf(n)
  {
    SplitHead(n) + SplitTail(n)
  }

  function SplitHead(n: TreeNode): seq<Member> {
    [Member(SPLIT_FEATURE, JUint(n.splitFeature))] +
    (if n.splitGain.Some? then [Member(SPLIT_GAIN, JDouble(n.splitGain.value))] else [])
  }

  function SplitTail(n: TreeNode): seq<Member>
    requires !Leaf(n) && n.rightChild.Some?
  {
    [Member(THRESHOLD, JDouble(n.threshold)),
     Member(DEFAULT_LEFT, JBool(n.defaultLeft)),
     Member(DECISION_TYPE, JString(LT)),
     Member(LEFT_CHILD, JUint(n.leftChild.value)),
     Member(RIGHT_CHILD, JUint(n.rightChild.value))]
  }

  function NodesJson(nodes: seq<TreeNode>): (r: seq<Json>)
    requires NodesWritable(nodes)
    ensures |r| == |nodes| && forall i :: 0 <= i < |nodes| ==> r[i] == JObject(NodeMembers(nodes[i]))
  {
    seq(|nodes|, i requires 0 <= i < |nodes| && NodesWritable(nodes) => JObject(NodeMembers(nodes[i])))
  }

  function TargetTypeString(t: TargetType): string {
    match t
      case Classification => TARGET_TYPE_CLASSIFICATION
      case Regression => TARGET_TYPE_REGRESSION
  }

  /** The members every trained model writes first. */
  function CommonMembers(featureNames: seq<string>, labels: Option<seq<string>>,
                         weights: Option<seq<real>>, targetType: TargetType): seq<Member>
  {
    [Member(FEATURE_NAMES, JArray(StringsJson(featureNames)))] +
    (if labels.Some? then [Member(CLASSIFICATION_LABELS, JArray(StringsJson(labels.value)))] else []) +
    (if weights.Some? then [Member(CLASSIFICATION_WEIGHTS, JArray(DoublesJson(weights.value)))] else []) +
    [Member(TARGET_TYPE, JString(TargetTypeString(targetType)))]
  }

  predicate TreeWritable(t: TreeData) {
    NodesWritable(t.nodes)
  }

  function TreeMember(t: TreeData): Member
    requires TreeWritable(t)
  {
    Member(TREE, JObject(
      CommonMembers(t.featureNames, t.classificationLabels, t.classificationWeights, t.targetType) +
      [Member(TREE_STRUCTURE, JArray(NodesJson(t.nodes)))]))
  }

  function AggregateTag(a: AggregateOutput): string {
    match a
      case WeightedSum(_) => WEIGHTED_SUM
      case WeightedMode(_) => WEIGHTED_MODE
      case LogisticRegression(_) => LOGISTIC_REGRESSION
      case Exponent(_) => EXPONENT
  }

  /** An aggregator as an object holding one object under its tag, which
      holds the weights. */
  function AggregateJson(a: AggregateOutput): Json {
    JObject([Member(AggregateTag(a), JObject([Member(WEIGHTS, JArray(DoublesJson(a.weights)))]))])
  }

  predicate EnsembleWritable(e: EnsembleData) {
    forall i :: 0 <= i < |e.members| ==> TreeWritable(e.members[i])
  }

  function MembersJson(ms: seq<TreeData>): (r: seq<Json>)
    requires forall i :: 0 <= i < |ms| ==> TreeWritable(ms[i])
    ensures |r| == |ms| && forall i :: 0 <= i < |ms| ==> r[i] == JObject([TreeMember(ms[i])])
  {
    seq(|ms|, i requires 0 <= i < |ms| && TreeWritable(ms[i]) => JObject([TreeMember(ms[i])]))
  }

  function EnsembleMember(e: EnsembleData): Member
    requires EnsembleWritable(e)
  {
    Member(ENSEMBLE, JObject(
      CommonMembers(e.featureNames, e.classificationLabels, e.classificationWeights, e.targetType) +
      [Member(TRAINED_MODELS, JArray(MembersJson(e.members))),
       Member(AGGREGATE_OUTPUT, AggregateJson(e.aggregate))]))
  }

  predicate ModelWritable(m: ModelData) {
    match m
      case TreeModel(t) => TreeWritable(t)
      case EnsembleModel(e) => EnsembleWritable(e)
  }

  function ModelMember(m: ModelData): Member
    requires ModelWritable(m)
  {
    match m
      case TreeModel(t) => TreeMember(t)
      case EnsembleModel(e) => EnsembleMember(e)
  }

  function EncodingType(e: Encoding): string {
    match e
      case TargetMean(_, _, _, _) => TARGET_MEAN_ENCODING
      case Frequency(_, _, _) => FREQUENCY_ENCODING
      case OneHot(_, _) => ONE_HOT_ENCODING
  }

  function RealMapMembers(entries: seq<(string, real)>): (r: seq<Member>)
    ensures |r| == |entries| && forall i :: 0 <= i < |entries| ==>
      r[i] == Member(entries[i].0, JDouble(entries[i].1))
  {
    seq(|entries|, i requires 0 <= i < |entries| => Member(entries[i].0, JDouble(entries[i].1)))
  }

  function StringMapMembers(entries: seq<(string, string)>): (r: seq<Member>)
    ensures |r| == |entries| && forall i :: 0 <= i < |entries| ==>
      r[i] == Member(entries[i].0, JString(entries[i].1))
  {
    seq(|entries|, i requires 0 <= i < |entries| => Member(entries[i].0, JString(entries[i].1)))
  }

  function EncodingMembers(e: Encoding): seq<Member> {
    [Member(FIELD, JString(e.field))] +
    match e
      case TargetMean(_, d, f, m) =>
        [Member(DEFAULT_VALUE, JDouble(d)), Member(FEATURE_NAME, JString(f)),
         Member(TARGET_MAP, JObject(RealMapMembers(m)))]
      case Frequency(_, f, m) =>
        [Member(FEATURE_NAME, JString(f)), Member(FREQUENCY_MAP, JObject(RealMapMembers(m)))]
      case OneHot(_, m) =>
        [Member(HOT_MAP, JObject(StringMapMembers(m)))]
  }

  function EncodingJson(e: Encoding): Json {
    JObject([Member(EncodingType(e), JObject(EncodingMembers(e)))])
  }

  function EncodingsJson(es: seq<Encoding>): (r: seq<Json>)
    ensures |r| == |es| && forall i :: 0 <= i < |es| ==> r[i] == EncodingJson(es[i])
  {
    seq(|es|, i requires 0 <= i < |es| => EncodingJson(es[i]))
  }

  /** What an opaque custom preprocessor contributes to the preprocessors
      array: the elements of an array, a non-empty object itself, and
      nothing otherwise. */
  function OpaqueElements(v: Json): seq<Json> {
    match v
      case JArray(es) => es
      case JObject(ms) => if |ms| > 0 then [v] else []
      case _ => []
  }

  /** The contributions of the first i custom preprocessors. */
  function OpaqueUpTo(cs: seq<Json>, i: nat): seq<Json>
    requires i <= |cs|
  {
    if i == 0 then [] else OpaqueUpTo(cs, i - 1) + OpaqueElements(cs[i - 1])
  }

  predicate DefinitionWritable(d: Definition) {
    d.trainedModel.Some? ==> ModelWritable(d.trainedModel.value)
  }

  function PreprocessorsJson(d: Definition): seq<Json> {
    OpaqueUpTo(d.customPreprocessors, |d.customPreprocessors|) + EncodingsJson(d.preprocessors)
  }

  function DefinitionJson(d: Definition): Json
    requires DefinitionWritable(d)
  {
    JObject([Member(PREPROCESSORS, JArray(PreprocessorsJson(d)))] +
      if d.trainedModel.Some? then
        [Member(TRAINED_MODEL, JObject([ModelMember(d.trainedModel.value)]))]
      else [])
  }

  // ---------------------------------------------------------------------
  // Event-sequence algebra.

  function MemberTokens(m: Member): seq<Token> {
    [Key(m.key)] + Tokens(m.value)
  }

  lemma MembersSnoc(ms: seq<Member>, m: Member)
    ensures MembersTokens(ms + [m]) == MembersTokens(ms) + MemberTokens(m)
  {
    MembersTokensConcat(ms, [m]);
    assert [m][1..] == [];
  }

  lemma ElementsSnoc(es: seq<Json>, i: nat)
    requires i < |es|
    ensures ElementsTokens(es[..i + 1]) == ElementsTokens(es[..i]) + Tokens(es[i])
  {
    assert es[..i + 1] == es[..i] + [es[i]];
    ElementsTokensConcat(es[..i], [es[i]]);
    assert [es[i]][1..] == [];
  }

  /** A key, an object's members between its brackets: one more member. */
  lemma ObjectAppended(start: seq<Token>, ms: seq<Member>, k: string, body: seq<Member>)
    ensures start + MembersTokens(ms) + [Key(k), StartObject] + MembersTokens(body) + [EndObject] ==
            start + MembersTokens(ms + [Member(k, JObject(body))])
  {
    MembersSnoc(ms, Member(k, JObject(body)));
  }

  /** A key, an array's elements between its brackets: one more member. */
  lemma ArrayAppended(start: seq<Token>, ms: seq<Member>, k: string, es: seq<Json>)
    ensures start + MembersTokens(ms) + [Key(k), StartArray] + ElementsTokens(es) + [EndArray] ==
            start + MembersTokens(ms + [Member(k, JArray(es))])
  {
    MembersSnoc(ms, Member(k, JArray(es)));
  }

  /** A key and a value: one more member. */
  lemma ValueAppended(start: seq<Token>, ms: seq<Member>, k: string, v: Json)
    ensures start + MembersTokens(ms) + [Key(k)] + Tokens(v) ==
            start + MembersTokens(ms + [Member(k, v)])
  {
    MembersSnoc(ms, Member(k, v));
  }

  lemma ObjectWrapped(start: seq<Token>, ms: seq<Member>)
    ensures start + [StartObject] + MembersTokens(ms) + [EndObject] == start + Tokens(JObject(ms))
  {
  }

  lemma MembersPrefixSnoc(ms: seq<Member>, i: nat)
    requires i < |ms|
    ensures MembersTokens(ms[..i + 1]) == MembersTokens(ms[..i]) + MemberTokens(ms[i])
  {
    assert ms[..i + 1] == ms[..i] + [ms[i]];
    MembersSnoc(ms[..i], ms[i]);
  }

  // ---------------------------------------------------------------------
  // The writer and the methods that write to it.

  /** A line writer: it records the events it is given. */
  class Writer {
    var events: seq<Token>

    constructor ()
      ensures events == []
    {
      events := [];
    }

    method Emit(t: Token)
      modifies this
      ensures events == old(events) + [t]
    {
      events := events + [t];
    }

    /** Writes a whole JSON value (a parsed document it is handed). */
    method Write(v: Json)
      modifies this
      ensures events == old(events) + Tokens(v)
    {
      events := events + Tokens(v);
    }
  }

  function ScalarToken(v: Json): Token
    requires v.JString? || v.JUint? || v.JDouble? || v.JBool?
  {
    match v
      case JString(s) => Str(s)
      case JUint(n) => Uint(n)
      case JDouble(d) => Double(d)
      case JBool(b) => Bool(b)
  }

  /** A key followed by a scalar value, as the members of an object so far
      (ms) grow by one. */
  method PutScalar(w: Writer, ghost start: seq<Token>, ghost ms: seq<Member>, k: string, v: Json)
    returns (ghost ms': seq<Member>)
    requires v.JString? || v.JUint? || v.JDouble? || v.JBool?
    requires w.events == start + MembersTokens(ms)
    modifies w
    ensures ms' == ms + [Member(k, v)]
    ensures w.events == start + MembersTokens(ms')
  {
    w.Emit(Key(k));
    w.Emit(ScalarToken(v));
    assert w.events == start + MembersTokens(ms) + [Key(k)] + Tokens(v);
    ValueAppended(start, ms, k, v);
    ms' := ms + [Member(k, v)];
  }

  /** addJsonArray for doubles: the tag, then the values in order. */
  method PutDoubleArray(w: Writer, ghost start: seq<Token>, ghost ms: seq<Member>, tag: string, vs: seq<real>)
    returns (ghost ms': seq<Member>)
    requires w.events == start + MembersTokens(ms)
    modifies w
    ensures ms' == ms + [Member(tag, JArray(DoublesJson(vs)))]
    ensures w.events == start + MembersTokens(ms')
  {
    ghost var es := DoublesJson(vs);
    w.Emit(Key(tag));
    w.Emit(StartArray);
    ghost var s := w.events;
    SnocSnoc(start + MembersTokens(ms), Key(tag), StartArray);
    assert s == start + MembersTokens(ms) + [Key(tag), StartArray];
    for i := 0 to |vs|
      invariant w.events == s + ElementsTokens(es[..i])
    {
      w.Emit(Double(vs[i]));
      ElementsSnoc(es, i);
    }
    assert es[..|vs|] == es;
    w.Emit(EndArray);
    ArrayAppended(start, ms, tag, es);
    ms' := ms + [Member(tag, JArray(es))];
  }

  /** addJsonArray for strings. */
  method PutStringArray(w: Writer, ghost start: seq<Token>, ghost ms: seq<Member>, tag: string, ss: seq<string>)
    returns (ghost ms': seq<Member>)
    requires w.events == start + MembersTokens(ms)
    modifies w
    ensures ms' == ms + [Member(tag, JArray(StringsJson(ss)))]
    ensures w.events == start + MembersTokens(ms')
  {
    ghost var es := StringsJson(ss);
    w.Emit(Key(tag));
    w.Emit(StartArray);
    ghost var s := w.events;
    SnocSnoc(start + MembersTokens(ms), Key(tag), StartArray);
    assert s == start + MembersTokens(ms) + [Key(tag), StartArray];
    for i := 0 to |ss|
      invariant w.events == s + ElementsTokens(es[..i])
    {
      w.Emit(Str(ss[i]));
      ElementsSnoc(es, i);
    }
    assert es[..|ss|] == es;
    w.Emit(EndArray);
    ArrayAppended(start, ms, tag, es);
    ms' := ms + [Member(tag, JArray(es))];
  }

  /** CTreeNode::addToJsonStream. */
  method AddNode(w: Writer, n: TreeNode)
    requires NodeWritable(n)
    modifies w
    ensures w.events == old(w.events) + MembersTokens(NodeMembers(n))
  {
    ghost var start := w.events;
    ghost var ms: seq<Member> := [];
    ms := PutScalar(w, start, ms, NODE_INDEX, JUint(n.nodeIndex));
    ms := PutScalar(w, start, ms, NUMBER_SAMPLES, JUint(n.numberSamples));
    if n.leftChild.Some? {
      ms := AddSplit(w, start, ms, n);
      assert ms == NodeMembers(n);
    } else if |n.leafValue| > 1 {
      ms := PutDoubleArray(w, start, ms, LEAF_VALUE, n.leafValue);
      assert ms == NodeMembers(n);
    } else {
      ms := PutScalar(w, start, ms, LEAF_VALUE, JDouble(n.leafValue[0]));
      assert ms == NodeMembers(n);
    }
  }

  /** The split members of CTreeNode::addToJsonStream. */
  method AddSplit(w: Writer, ghost start: seq<Token>, ghost ms: seq<Member>, n: TreeNode)
    returns (ghost ms': seq<Member>)
    requires NodeWritable(n) && !Leaf(n)
    requires w.events == start + MembersTokens(ms)
    modifies w
    ensures ms' == ms + SplitMembers(n)
    ensures w.events == start + MembersTokens(ms')
  {
    ghost var mid := AddSplitHead(w, start, ms, n);
    ms' := AddSplitTail(w, start, mid, n);
    Assoc(ms, SplitHead(n), SplitTail(n));
  }

  method AddSplitHead(w: Writer, ghost start: seq<Token>, ghost ms: seq<Member>, n: TreeNode)
    returns (ghost ms': seq<Member>)
    requires w.events == start + MembersTokens(ms)
    modifies w
    ensures ms' == ms + SplitHead(n)
    ensures w.events == start + MembersTokens(ms')
  {
    ms' := PutScalar(w, start, ms, SPLIT_FEATURE, JUint(n.splitFeature));
    if n.splitGain.Some? {
      ms' := PutScalar(w, start, ms', SPLIT_GAIN, JDouble(n.splitGain.value));
    }
  }

  method AddSplitTail(w: Writer, ghost start: seq<Token>, ghost ms: seq<Member>, n: TreeNode)
    returns (ghost ms': seq<Member>)
    requires !Leaf(n) && n.rightChild.Some?
    requires w.events == start + MembersTokens(ms)
    modifies w
    ensures ms' == ms + SplitTail(n)
    ensures w.events == start + MembersTokens(ms')
  {
    ms' := PutScalar(w, start, ms, THRESHOLD, JDouble(n.threshold));
    ms' := PutScalar(w, start, ms', DEFAULT_LEFT, JBool(n.defaultLeft));
    ms' := PutScalar(w, start, ms', DECISION_TYPE, JString(LT));
    ms' := PutScalar(w, start, ms', LEFT_CHILD, JUint(n.leftChild.value));
    ms' := PutScalar(w, start, ms', RIGHT_CHILD, JUint(n.rightChild.value));
  }

  /** CTrainedModel::addToJsonStream: the members every model writes. */
  method AddCommon(w: Writer, ghost start: seq<Token>, ghost ms: seq<Member>,
                   featureNames: seq<string>, labels: Option<seq<string>>,
                   weights: Option<seq<real>>, targetType: TargetType)
    returns (ghost ms': seq<Member>)
    requires w.events == start + MembersTokens(ms)
    modifies w
    ensures ms' == ms + CommonMembers(featureNames, labels, weights, targetType)
    ensures w.events == start + MembersTokens(ms')
  {
    ms' := PutStringArray(w, start, ms, FEATURE_NAMES, featureNames);
    ghost var head := ms';
    ghost var lab: seq<Member> := [];
    if labels.Some? {
      ms' := PutStringArray(w, start, ms', CLASSIFICATION_LABELS, labels.value);
      lab := [Member(CLASSIFICATION_LABELS, JArray(StringsJson(labels.value)))];
    }
    ghost var wts: seq<Member> := [];
    if weights.Some? {
      ms' := PutDoubleArray(w, start, ms', CLASSIFICATION_WEIGHTS, weights.value);
      wts := [Member(CLASSIFICATION_WEIGHTS, JArray(DoublesJson(weights.value)))];
    }
    assert ms' == head + lab + wts;
    // the switch over the target type writes TargetTypeString's literal
    ms' := PutScalar(w, start, ms', TARGET_TYPE, JString(TargetTypeString(targetType)));
    CommonSplit(ms, featureNames, lab, wts, targetType);
  }

  lemma CommonSplit(ms: seq<Member>, featureNames: seq<string>, lab: seq<Member>, wts: seq<Member>,
                    targetType: TargetType)
    ensures ms + [Member(FEATURE_NAMES, JArray(StringsJson(featureNames)))] + lab + wts
              + [Member(TARGET_TYPE, JString(TargetTypeString(targetType)))]
            == ms + ([Member(FEATURE_NAMES, JArray(StringsJson(featureNames)))] + lab + wts
              + [Member(TARGET_TYPE, JString(TargetTypeString(targetType)))])
  {
  }

  /** One node's object. */
  method AddNodeObject(w: Writer, n: TreeNode)
    requires NodeWritable(n)
    modifies w
    ensures w.events == old(w.events) + Tokens(JObject(NodeMembers(n)))
  {
    w.Emit(StartObject);
    AddNode(w, n);
    w.Emit(EndObject);
    Assoc(old(w.events), [StartObject], MembersTokens(NodeMembers(n)));
    Assoc(old(w.events), [StartObject] + MembersTokens(NodeMembers(n)), [EndObject]);
  }

  /** Writes each node as an object, in order. */
  method AddTreeStructure(w: Writer, nodes: seq<TreeNode>)
    requires NodesWritable(nodes)
    modifies w
    ensures w.events == old(w.events) + ElementsTokens(NodesJson(nodes))
  {
    ghost var es := NodesJson(nodes);
    ghost var s := w.events;
    for i := 0 to |nodes|
      invariant w.events == s + ElementsTokens(es[..i])
    {
      AddNodeObject(w, nodes[i]);
      ElementsSnoc(es, i);
      Assoc(s, ElementsTokens(es[..i]), Tokens(es[i]));
    }
    assert es[..|nodes|] == es;
  }

  /** CTree::addToJsonStream: the "tree" member of the enclosing object. */
  method AddTree(w: Writer, ghost start: seq<Token>, ghost ms: seq<Member>, t: TreeData)
    returns (ghost ms': seq<Member>)
    requires TreeWritable(t)
    requires w.events == start + MembersTokens(ms)
    modifies w
    ensures ms' == ms + [TreeMember(t)]
    ensures w.events == start + MembersTokens(ms')
  {
    w.Emit(Key(TREE));
    w.Emit(StartObject);
    ghost var inner := w.events;
    SnocSnoc(start + MembersTokens(ms), Key(TREE), StartObject);
    assert inner == start + MembersTokens(ms) + [Key(TREE), StartObject];
    ghost var body := AddCommon(w, inner, [], t.featureNames, t.classificationLabels,
                                t.classificationWeights, t.targetType);
    ghost var common := CommonMembers(t.featureNames, t.classificationLabels,
                                      t.classificationWeights, t.targetType);
    assert body == common by { assert [] + common == common; }
    w.Emit(Key(TREE_STRUCTURE));
    w.Emit(StartArray);
    ghost var nodesStart := w.events;
    SnocSnoc(inner + MembersTokens(body), Key(TREE_STRUCTURE), StartArray);
    assert nodesStart == inner + MembersTokens(body) + [Key(TREE_STRUCTURE), StartArray];
    AddTreeStructure(w, t.nodes);
    w.Emit(EndArray);
    ArrayAppended(inner, body, TREE_STRUCTURE, NodesJson(t.nodes));
    body := body + [Member(TREE_STRUCTURE, JArray(NodesJson(t.nodes)))];
    assert w.events == inner + MembersTokens(body);
    w.Emit(EndObject);
    ObjectAppended(start, ms, TREE, body);
    assert TreeMember(t) == Member(TREE, JObject(body));
    ms' := ms + [TreeMember(t)];
  }

  /** The aggregator object, each kind under its own tag. */
  method AddAggregate(w: Writer, a: AggregateOutput)
    modifies w
    ensures w.events == old(w.events) + Tokens(AggregateJson(a))
  {
    var tag := AggregateTag(a);
    w.Emit(StartObject);
    ghost var outer := w.events;
    w.Emit(Key(tag));
    w.Emit(StartObject);
    ghost var inner := w.events;
    SnocSnoc(outer, Key(tag), StartObject);
    assert inner == outer + MembersTokens([]) + [Key(tag), StartObject];
    ghost var body := PutDoubleArray(w, inner, [], WEIGHTS, a.weights);
    assert body == [Member(WEIGHTS, JArray(DoublesJson(a.weights)))];
    w.Emit(EndObject);
    ObjectAppended(outer, [], tag, body);
    assert [] + [Member(tag, JObject(body))] == AggregateJson(a).members;
    w.Emit(EndObject);
    ObjectWrapped(old(w.events), AggregateJson(a).members);
  }

  /** Writes each member model as an object holding its "tree" member. */
  method AddMembers(w: Writer, members: seq<TreeData>)
    requires forall i :: 0 <= i < |members| ==> TreeWritable(members[i])
    modifies w
    ensures w.events == old(w.events) + ElementsTokens(MembersJson(members))
  {
    ghost var es := MembersJson(members);
    ghost var s := w.events;
    for i := 0 to |members|
      invariant w.events == s + ElementsTokens(es[..i])
    {
      ghost var before := w.events;
      w.Emit(StartObject);
      ghost var inner := w.events;
      assert inner == inner + MembersTokens([]);
      ghost var body := AddTree(w, inner, [], members[i]);
      w.Emit(EndObject);
      assert body == [TreeMember(members[i])];
      ObjectWrapped(before, body);
      ElementsSnoc(es, i);
    }
    assert es[..|members|] == es;
  }

  /** CEnsemble::addToJsonStream: the "ensemble" member. */
  method AddEnsemble(w: Writer, ghost start: seq<Token>, ghost ms: seq<Member>, e: EnsembleData)
    returns (ghost ms': seq<Member>)
    requires EnsembleWritable(e)
    requires w.events == start + MembersTokens(ms)
    modifies w
    ensures ms' == ms + [EnsembleMember(e)]
    ensures w.events == start + MembersTokens(ms')
  {
    w.Emit(Key(ENSEMBLE));
    w.Emit(StartObject);
    ghost var inner := w.events;
    SnocSnoc(start + MembersTokens(ms), Key(ENSEMBLE), StartObject);
    assert inner == start + MembersTokens(ms) + [Key(ENSEMBLE), StartObject];
    ghost var body := AddCommon(w, inner, [], e.featureNames, e.classificationLabels,
                                e.classificationWeights, e.targetType);
    ghost var common := CommonMembers(e.featureNames, e.classificationLabels,
                                      e.classificationWeights, e.targetType);
    assert body == common by { assert [] + common == common; }
    ghost var trained := Member(TRAINED_MODELS, JArray(MembersJson(e.members)));
    ghost var aggregate := Member(AGGREGATE_OUTPUT, AggregateJson(e.aggregate));
    w.Emit(Key(TRAINED_MODELS));
    w.Emit(StartArray);
    SnocSnoc(inner + MembersTokens(common), Key(TRAINED_MODELS), StartArray);
    assert w.events == inner + MembersTokens(common) + [Key(TRAINED_MODELS), StartArray];
    AddMembers(w, e.members);
    w.Emit(EndArray);
    ArrayAppended(inner, common, TRAINED_MODELS, MembersJson(e.members));
    w.Emit(Key(AGGREGATE_OUTPUT));
    AddAggregate(w, e.aggregate);
    ValueAppended(inner, common + [trained], AGGREGATE_OUTPUT, AggregateJson(e.aggregate));
    SnocSnoc(common, trained, aggregate);
    w.Emit(EndObject);
    ObjectAppended(start, ms, ENSEMBLE, common + [trained, aggregate]);
    ms' := ms + [EnsembleMember(e)];
  }

  /** CTrainedModel::addToJsonStream as the member a model writes. */
  method AddModel(w: Writer, ghost start: seq<Token>, ghost ms: seq<Member>, m: ModelData)
    returns (ghost ms': seq<Member>)
    requires ModelWritable(m)
    requires w.events == start + MembersTokens(ms)
    modifies w
    ensures ms' == ms + [ModelMember(m)]
    ensures w.events == start + MembersTokens(ms')
  {
    match m
      case TreeModel(t) => ms' := AddTree(w, start, ms, t);
      case EnsembleModel(e) => ms' := AddEnsemble(w, start, ms, e);
  }

  /** The entries of a hash map from strings to doubles, in iteration
      order, as an object under the tag. */
  method PutRealMap(w: Writer, ghost start: seq<Token>, ghost ms: seq<Member>, tag: string,
                    entries: seq<(string, real)>)
    returns (ghost ms': seq<Member>)
    requires w.events == start + MembersTokens(ms)
    modifies w
    ensures ms' == ms + [Member(tag, JObject(RealMapMembers(entries)))]
    ensures w.events == start + MembersTokens(ms')
  {
    ghost var entryMembers := RealMapMembers(entries);
    w.Emit(Key(tag));
    w.Emit(StartObject);
    ghost var s := w.events;
    SnocSnoc(start + MembersTokens(ms), Key(tag), StartObject);
    assert s == start + MembersTokens(ms) + [Key(tag), StartObject];
    for i := 0 to |entries|
      invariant w.events == s + MembersTokens(entryMembers[..i])
    {
      w.Emit(Key(entries[i].0));
      w.Emit(Double(entries[i].1));
      MembersPrefixSnoc(entryMembers, i);
    }
    assert entryMembers[..|entries|] == entryMembers;
    w.Emit(EndObject);
    ObjectAppended(start, ms, tag, entryMembers);
    ms' := ms + [Member(tag, JObject(entryMembers))];
  }

  /** The entries of a hash map from strings to strings. */
  method PutStringMap(w: Writer, ghost start: seq<Token>, ghost ms: seq<Member>, tag: string,
                      entries: seq<(string, string)>)
    returns (ghost ms': seq<Member>)
    requires w.events == start + MembersTokens(ms)
    modifies w
    ensures ms' == ms + [Member(tag, JObject(StringMapMembers(entries)))]
    ensures w.events == start + MembersTokens(ms')
  {
    ghost var entryMembers := StringMapMembers(entries);
    w.Emit(Key(tag));
    w.Emit(StartObject);
    ghost var s := w.events;
    SnocSnoc(start + MembersTokens(ms), Key(tag), StartObject);
    assert s == start + MembersTokens(ms) + [Key(tag), StartObject];
    for i := 0 to |entries|
      invariant w.events == s + MembersTokens(entryMembers[..i])
    {
      w.Emit(Key(entries[i].0));
      w.Emit(Str(entries[i].1));
      MembersPrefixSnoc(entryMembers, i);
    }
    assert entryMembers[..|entries|] == entryMembers;
    w.Emit(EndObject);
    ObjectAppended(start, ms, tag, entryMembers);
    ms' := ms + [Member(tag, JObject(entryMembers))];
  }

  /** The addToJsonStream of the three encodings: the field, then the
      encoding's own members. */
  method AddEncodingMembers(w: Writer, e: Encoding)
    modifies w
    ensures w.events == old(w.events) + MembersTokens(EncodingMembers(e))
  {
    ghost var start := w.events;
    assert start == start + MembersTokens([]);
    ghost var ms := PutScalar(w, start, [], FIELD, JString(e.field));
    match e {
      case TargetMean(_, d, f, m) =>
        ms := PutScalar(w, start, ms, DEFAULT_VALUE, JDouble(d));
        ms := PutScalar(w, start, ms, FEATURE_NAME, JString(f));
        ms := PutRealMap(w, start, ms, TARGET_MAP, m);
      case Frequency(_, f, m) =>
        ms := PutScalar(w, start, ms, FEATURE_NAME, JString(f));
        ms := PutRealMap(w, start, ms, FREQUENCY_MAP, m);
      case OneHot(_, m) =>
        ms := PutStringMap(w, start, ms, HOT_MAP, m);
    }
    assert ms == EncodingMembers(e);
  }

  /** One encoding: its members inside an object under its type tag,
      inside an object of its own. */
  method AddEncoding(w: Writer, e: Encoding)
    modifies w
    ensures w.events == old(w.events) + Tokens(EncodingJson(e))
  {
    w.Emit(StartObject);
    ghost var outer := w.events;
    w.Emit(Key(EncodingType(e)));
    w.Emit(StartObject);
    SnocSnoc(outer, Key(EncodingType(e)), StartObject);
    assert w.events == outer + MembersTokens([]) + [Key(EncodingType(e)), StartObject];
    AddEncodingMembers(w, e);
    w.Emit(EndObject);
    ObjectAppended(outer, [], EncodingType(e), EncodingMembers(e));
    assert [] + [Member(EncodingType(e), JObject(EncodingMembers(e)))] == EncodingJson(e).members;
    w.Emit(EndObject);
    ObjectWrapped(old(w.events), EncodingJson(e).members);
  }

  /** COpaqueEncoding::addToJsonStream: the elements of an array, a
      non-empty object itself, otherwise nothing. */
  method AddOpaque(w: Writer, v: Json)
    modifies w
    ensures w.events == old(w.events) + ElementsTokens(OpaqueElements(v))
  {
    if v.JArray? {
      ghost var s := w.events;
      for i := 0 to |v.elems|
        invariant w.events == s + ElementsTokens(v.elems[..i])
      {
        w.Write(v.elems[i]);
        ElementsSnoc(v.elems, i);
      }
      assert v.elems[..|v.elems|] == v.elems;
    } else if v.JObject? && |v.members| > 0 {
      w.Write(v);
      assert [v][1..] == [];
    }
  }

  /** The custom preprocessors' contributions, in order. */
  method AddCustomPreprocessors(w: Writer, cs: seq<Json>)
    modifies w
    ensures w.events == old(w.events) + ElementsTokens(OpaqueUpTo(cs, |cs|))
  {
    ghost var s := w.events;
    for i := 0 to |cs|
      invariant w.events == s + ElementsTokens(OpaqueUpTo(cs, i))
    {
      AddOpaque(w, cs[i]);
      ElementsTokensConcat(OpaqueUpTo(cs, i), OpaqueElements(cs[i]));
      assert OpaqueUpTo(cs, i + 1) == OpaqueUpTo(cs, i) + OpaqueElements(cs[i]);
      Assoc(s, ElementsTokens(OpaqueUpTo(cs, i)), ElementsTokens(OpaqueElements(cs[i])));
    }
  }

  /** Each encoding, in order. */
  method AddEncodings(w: Writer, encodings: seq<Encoding>)
    modifies w
    ensures w.events == old(w.events) + ElementsTokens(EncodingsJson(encodings))
  {
    ghost var s := w.events;
    ghost var es := EncodingsJson(encodings);
    for i := 0 to |encodings|
      invariant w.events == s + ElementsTokens(es[..i])
    {
      AddEncoding(w, encodings[i]);
      ElementsSnoc(es, i);
    }
    assert es[..|encodings|] == es;
  }

  /** The preprocessors array's elements: the custom ones first, then each
      encoding. */
  method AddPreprocessors(w: Writer, d: Definition)
    modifies w
    ensures w.events == old(w.events) + ElementsTokens(PreprocessorsJson(d))
  {
    ghost var s := w.events;
    var custom := OpaqueUpTo(d.customPreprocessors, |d.customPreprocessors|);
    AddCustomPreprocessors(w, d.customPreprocessors);
    AddEncodings(w, d.preprocessors);
    ElementsTokensConcat(custom, EncodingsJson(d.preprocessors));
    Assoc(s, ElementsTokens(custom), ElementsTokens(EncodingsJson(d.preprocessors)));
  }

  /** CInferenceModelDefinition::addToJsonStream: one object holding the
      preprocessors and, when set, the trained model. */
  method AddDefinition(w: Writer, d: Definition)
    requires DefinitionWritable(d)
    modifies w
    ensures w.events == old(w.events) + Tokens(DefinitionJson(d))
  {
    w.Emit(StartObject);
    ghost var inner := w.events;
    w.Emit(Key(PREPROCESSORS));
    w.Emit(StartArray);
    SnocSnoc(inner, Key(PREPROCESSORS), StartArray);
    assert w.events == inner + MembersTokens([]) + [Key(PREPROCESSORS), StartArray];
    AddPreprocessors(w, d);
    w.Emit(EndArray);
    ArrayAppended(inner, [], PREPROCESSORS, PreprocessorsJson(d));
    ghost var body: seq<Member> := [Member(PREPROCESSORS, JArray(PreprocessorsJson(d)))];
    assert [] + body == body;
    if d.trainedModel.Some? {
      w.Emit(Key(TRAINED_MODEL));
      w.Emit(StartObject);
      ghost var s := w.events;
      SnocSnoc(inner + MembersTokens(body), Key(TRAINED_MODEL), StartObject);
      assert s == inner + MembersTokens(body) + [Key(TRAINED_MODEL), StartObject];
      assert s == s + MembersTokens([]);
      ghost var mm := AddModel(w, s, [], d.trainedModel.value);
      assert mm == [ModelMember(d.trainedModel.value)];
      w.Emit(EndObject);
      ObjectAppended(inner, body, TRAINED_MODEL, mm);
      body := body + [Member(TRAINED_MODEL, JObject(mm))];
    }
    assert body == DefinitionJson(d).members;
    w.Emit(EndObject);
    ObjectWrapped(old(w.events), body);
  }

  // ---------------------------------------------------------------------
  // Properties of what is written.

  /** The value stored under a key of an object (the first such member). */
  function Lookup(ms: seq<Member>, k: string): (r: Option<Json>)
    ensures r.Some? <==> k in Keys(ms)
  {
    if |ms| == 0 then None
    else if ms[0].key == k then Some(ms[0].value)
    else Lookup(ms[1..], k)
  }

  /** Reading back a leaf value: an array of doubles or a single double. */
  function DecodeLeafValue(v: Json): (r: Option<seq<real>>)
    ensures r.Some? && v.JArray? ==>
      |r.value| == |v.elems| && forall i :: 0 <= i < |v.elems| ==> v.elems[i] == JDouble(r.value[i])
  {
    match v
      case JDouble(d) => Some([d])
      case JArray(es) =>
        if forall i :: 0 <= i < |es| ==> es[i].JDouble?
        then Some(seq(|es|, i requires 0 <= i < |es| && es[i].JDouble? => es[i].d))
        else None
      case _ => None
  }

  /** Reading a node object back: the index and sample count, then either
      a leaf value or the split members in the order a split node writes
      them. */
  function DecodeNode(ms: seq<Member>): Option<TreeNode> {
    if |ms| < 3 || ms[0].key != NODE_INDEX || !ms[0].value.JUint?
       || ms[1].key != NUMBER_SAMPLES || !ms[1].value.JUint? then None
    else if ms[2].key == LEAF_VALUE then
      if |ms| != 3 then None
      else match DecodeLeafValue(ms[2].value)
        case None => None
        case Some(vs) =>
          if |vs| == 0 then None
          else Some(TreeNode(ms[0].value.n, 0.0, false, vs, 0, ms[1].value.n, None, None, None))
    else DecodeSplit(ms[0].value.n, ms[1].value.n, ms[2..])
  }

  function DecodeSplit(index: nat, samples: nat, ms: seq<Member>): Option<TreeNode> {
    if |ms| < 1 || ms[0].key != SPLIT_FEATURE || !ms[0].value.JUint? then None
    else
      var hasGain := |ms| > 1 && ms[1].key == SPLIT_GAIN;
      var rest := if hasGain then ms[2..] else ms[1..];
      if hasGain && !ms[1].value.JDouble? then None
      else if |rest| != 5 then None
      else if rest[0].key == THRESHOLD && rest[0].value.JDouble?
           && rest[1].key == DEFAULT_LEFT && rest[1].value.JBool?
           && rest[2] == Member(DECISION_TYPE, JString(LT))
           && rest[3].key == LEFT_CHILD && rest[3].value.JUint?
           && rest[4].key == RIGHT_CHILD && rest[4].value.JUint?
      then
        Some(TreeNode(index, rest[0].value.d, rest[1].value.b, [], ms[0].value.n, samples,
                      Some(rest[3].value.n), Some(rest[4].value.n),
                      if hasGain then Some(ms[1].value.d) else None))
      else None
  }

  /** The part of a node its object carries: a leaf's index, sample count
      and value; everything but the leaf value for a split node. */
  function Written(n: TreeNode): TreeNode {
    if Leaf(n) then TreeNode(n.nodeIndex, 0.0, false, n.leafValue, 0, n.numberSamples, None, None, None)
    else n.(leafValue := [])
  }

  /** A leaf writes one leaf_value member after the index and sample
      count; it is an array iff the leaf holds more than one value. */
  lemma LeafLayout(n: TreeNode)
    requires NodeWritable(n) && Leaf(n)
    ensures |NodeMembers(n)| == 3 && NodeMembers(n)[2].key == LEAF_VALUE
    ensures NodeMembers(n)[2].value.JArray? <==> |n.leafValue| > 1
  {
  }

  /** Every node object reads back as the node it was written from, less
      what the layout leaves out (a split node's leaf value, a leaf's split
      data). */
  lemma NodeRoundTrip(n: TreeNode)
    requires NodeWritable(n)
    ensures DecodeNode(NodeMembers(n)) == Some(Written(n))
  {
    var ms := NodeMembers(n);
    if Leaf(n) {
      if |n.leafValue| > 1 {
        var es := DoublesJson(n.leafValue);
        assert seq(|es|, i requires 0 <= i < |es| && es[i].JDouble? => es[i].d) == n.leafValue;
      } else {
        assert [n.leafValue[0]] == n.leafValue;
      }
    } else {
      assert |LEAF_VALUE| != |SPLIT_FEATURE|;
      assert ms[2..] == SplitMembers(n);
      SplitRoundTrip(n);
    }
  }

  lemma SplitRoundTrip(n: TreeNode)
    requires NodeWritable(n) && !Leaf(n)
    ensures DecodeSplit(n.nodeIndex, n.numberSamples, SplitMembers(n)) == Some(n.(leafValue := []))
  {
    var ms := SplitMembers(n);
    assert |THRESHOLD| != |SPLIT_GAIN|;
    if n.splitGain.Some? {
      assert ms[2..] == SplitTail(n);
    } else {
      assert ms[1..] == SplitTail(n);
    }
  }

  lemma {:induction false} LookupAppend(a: seq<Member>, b: seq<Member>, k: string)
    ensures Lookup(a + b, k) == if k in Keys(a) then Lookup(a, k) else Lookup(b, k)
  {
    if |a| == 0 {
      assert a + b == b;
    } else {
      assert (a + b)[0] == a[0] && (a + b)[1..] == a[1..] + b;
      assert Keys(a) == [a[0].key] + Keys(a[1..]);
      LookupAppend(a[1..], b, k);
    }
  }

  /** What a tree writes: one "tree" member whose object starts with the
      feature names and holds one entry per node, in node order, under
      tree_structure. */
  lemma TreeLayout(t: TreeData)
    requires TreeWritable(t)
    ensures TreeMember(t).key == TREE && TreeMember(t).value.JObject?
    ensures TreeMember(t).value.members[0] == Member(FEATURE_NAMES, JArray(StringsJson(t.featureNames)))
    ensures Lookup(TreeMember(t).value.members, TREE_STRUCTURE) == Some(JArray(NodesJson(t.nodes)))
    ensures Lookup(TreeMember(t).value.members, CLASSIFICATION_LABELS).Some? <==> t.classificationLabels.Some?
  {
    var cm := CommonMembers(t.featureNames, t.classificationLabels, t.classificationWeights, t.targetType);
    var tail := [Member(TREE_STRUCTURE, JArray(NodesJson(t.nodes)))];
    assert TreeMember(t).value.members == cm + tail;
    LookupAppend(cm, tail, TREE_STRUCTURE);
    LookupAppend(cm, tail, CLASSIFICATION_LABELS);
  }

  /** Custom preprocessors come first in the preprocessors array, in
      order, then one object per encoding. */
  lemma PreprocessorsOrder(d: Definition)
    ensures |PreprocessorsJson(d)| == |OpaqueUpTo(d.customPreprocessors, |d.customPreprocessors|)| + |d.preprocessors|
    ensures forall i :: 0 <= i < |d.preprocessors| ==>
      PreprocessorsJson(d)[|PreprocessorsJson(d)| - |d.preprocessors| + i] == EncodingJson(d.preprocessors[i])
  {
    var custom := OpaqueUpTo(d.customPreprocessors, |d.customPreprocessors|);
    var es := EncodingsJson(d.preprocessors);
    forall i | 0 <= i < |d.preprocessors|
      ensures PreprocessorsJson(d)[|PreprocessorsJson(d)| - |d.preprocessors| + i] == EncodingJson(d.preprocessors[i])
    {
      assert (custom + es)[|custom| + i] == es[i];
    }
  }

  /** What a definition writes is one complete JSON text, so a line
      writer's output stays a sequence of complete texts. */
  lemma DefinitionIsDocument(prior: seq<Token>, d: Definition)
    requires DefinitionWritable(d) && Document(prior)
    ensures Document(Tokens(DefinitionJson(d)))
    ensures Document(prior + Tokens(DefinitionJson(d)))
  {
    ValueIsDocument(DefinitionJson(d));
    DocumentConcat(prior, Tokens(DefinitionJson(d)));
  }

  // ---------------------------------------------------------------------
  // CWeightedMode as written: the tag key is followed directly by the
  // weights key, with no object between them.

  function WeightedModeAsWritten(weights: seq<real>): seq<Token> {
    [StartObject, Key(WEIGHTED_MODE), Key(WEIGHTS), StartArray] +
    ElementsTokens(DoublesJson(weights)) + [EndArray, EndObject]
  }

  /** No writer state accepts those events: a key is never a value. */
  lemma WeightedModeAsWrittenRejected(weights: seq<real>, stk: seq<Frame>)
    ensures Run(stk, WeightedModeAsWritten(weights)) == None
  {
    var ev := WeightedModeAsWritten(weights);
    var head := [StartObject, Key(WEIGHTED_MODE), Key(WEIGHTS)];
    assert ev == head + ev[3..];
    RunConcat(stk, head, ev[3..]);
    match Slot(stk)
      case None =>
        assert Step(stk, StartObject) == None;
      case Some(s) =>
        var a := s + [ObjectKey];
        var b := a[..|a| - 1] + [ObjectValue];
        assert Step(stk, StartObject) == Some(a);
        assert Step(a, Key(WEIGHTED_MODE)) == Some(b);
        assert Step(b, Key(WEIGHTS)) == None;
        assert Run(b, [Key(WEIGHTS)]) == None;
        assert head[1..] == [Key(WEIGHTED_MODE), Key(WEIGHTS)];
        assert [Key(WEIGHTED_MODE), Key(WEIGHTS)][1..] == [Key(WEIGHTS)];
        assert Run(a, head[1..]) == None;
        assert Run(stk, head) == None;
  }

  /** The corrected layout, the one the other three aggregators write, is
      accepted wherever a value may stand. */
  lemma AggregateAccepted(a: AggregateOutput, stk: seq<Frame>)
    requires Slot(stk).Some?
    ensures Run(stk, Tokens(AggregateJson(a))) == Slot(stk)
  {
    ValueAccepted(AggregateJson(a), stk);
  }
}
