/** The compressed export of a model definition: the compressed, base64
    encoded definition is cut into pieces of at most MAX_DOCUMENT_SIZE
    characters and each piece is written as a document of its own,
    numbered from zero, the last one marked as the end of the stream. */
module CompressedExport {
  import opened Util
  import opened JsonTokens
  import opened ModelJson

  const BYTES_IN_MEGABYTES: nat := 1024 * 1024
  const MAX_DOCUMENT_SIZE: nat := 16 * BYTES_IN_MEGABYTES

  const COMPRESSED_INFERENCE_MODEL := "compressed_inference_model"
  const DOC_NUM := "doc_num"
  const DEFINITION := "definition"
  const EOS := "eos"

  function Min(a: nat, b: nat): nat {
    if a <= b then a else b
  }

  /** How many pieces a stream of length len is cut into. */
  function NumDocs(len: nat, m: nat): (r: nat)
    requires m > 0
    ensures len == 0 ==> r == 0
    ensures len > 0 ==> (r - 1) * m < len <= r * m
  {
    var r := (len + m - 1) / m;
    assert r * m <= len + m - 1 < r * m + m;
    r
  }

  /** The i-th piece: m characters from offset i*m, fewer at the end. */
  function Piece(stream: string, m: nat, i: nat): string
    requires m > 0 && i < NumDocs(|stream|, m)
  {
    stream[i * m .. Min((i + 1) * m, |stream|)]
  }

  function Pieces(stream: string, m: nat): (r: seq<string>)
    requires m > 0
    ensures |r| == NumDocs(|stream|, m)
    ensures forall i :: 0 <= i < |r| ==> r[i] == Piece(stream, m, i)
  {
    seq(NumDocs(|stream|, m), i requires 0 <= i < NumDocs(|stream|, m) => Piece(stream, m, i))
  }

  /** One document: the piece and its number inside a
      compressed_inference_model object, with eos on the last one. */
  function ChunkJson(piece: string, docNum: nat, last: bool): Json {
    JObject([Member(COMPRESSED_INFERENCE_MODEL, JObject(
      [Member(DOC_NUM, JUint(docNum)), Member(DEFINITION, JString(piece))] +
      if last then [Member(EOS, JBool(true))] else []))])
  }

  /** Reading back a document's number, piece and end marker. */
  function DecodeChunk(v: Json): Option<(nat, string, bool)> {
    if v.JObject? && |v.members| == 1 && v.members[0].key == COMPRESSED_INFERENCE_MODEL
       && v.members[0].value.JObject?
    then
      var ms := v.members[0].value.members;
      if |ms| in {2, 3} && ms[0].key == DOC_NUM && ms[0].value.JUint?
         && ms[1].key == DEFINITION && ms[1].value.JString?
         && (|ms| == 3 ==> ms[2] == Member(EOS, JBool(true)))
      then Some((ms[0].value.n, ms[1].value.s, |ms| == 3))
      else None
    else None
  }

  /** The documents: each one reads back as its own number, the piece of
      the stream with that number, and the end marker exactly on the last. */
  function Documents(stream: string, m: nat): (r: seq<Json>)
    requires m > 0
    ensures |r| == NumDocs(|stream|, m)
    ensures forall i :: 0 <= i < |r| ==>
              DecodeChunk(r[i]) == Some((i, Pieces(stream, m)[i], i == |r| - 1))
  {
    var n := NumDocs(|stream|, m);
    seq(n, i requires 0 <= i < n => ChunkJson(Piece(stream, m, i), i, i == n - 1))
  }

  /** The events one document is written with. */
  function ChunkEvents(piece: string, docNum: nat, last: bool): seq<Token> {
    [StartObject, Key(COMPRESSED_INFERENCE_MODEL), StartObject,
     Key(DOC_NUM), Uint(docNum), Key(DEFINITION), Str(piece)] +
    (if last then [Key(EOS), Bool(true)] else []) +
    [EndObject, EndObject]
  }

  lemma ChunkEventsAreTokens(piece: string, docNum: nat, last: bool)
    ensures ChunkEvents(piece, docNum, last) == Tokens(ChunkJson(piece, docNum, last))
  {
    var tail: seq<Member> := if last then [Member(EOS, JBool(true))] else [];
    var inner := [Member(DOC_NUM, JUint(docNum)), Member(DEFINITION, JString(piece))] + tail;
    MembersTokensConcat([Member(DOC_NUM, JUint(docNum)), Member(DEFINITION, JString(piece))], tail);
    var a := Member(DOC_NUM, JUint(docNum));
    var b := Member(DEFINITION, JString(piece));
    assert MembersTokens([b]) == [Key(DEFINITION), Str(piece)];
    assert [a, b][1..] == [b];
    assert MembersTokens([a, b]) == [Key(DOC_NUM), Uint(docNum), Key(DEFINITION), Str(piece)];
    assert MembersTokens(tail) == if last then [Key(EOS), Bool(true)] else [];
    var outer := [Member(COMPRESSED_INFERENCE_MODEL, JObject(inner))];
    assert MembersTokens(outer) == [Key(COMPRESSED_INFERENCE_MODEL)] + Tokens(JObject(inner));
  }

  /** addToDocumentCompressed: while characters remain, cut the next piece
      and write it as a document. */
  method AddToDocumentCompressed(w: Writer, stream: string)
    modifies w
    ensures w.events == old(w.events) + ElementsTokens(Documents(stream, MAX_DOCUMENT_SIZE))
  {
    ghost var docs := Documents(stream, MAX_DOCUMENT_SIZE);
    ghost var n := |docs|;
    ghost var s := w.events;
    var processed: nat := 0;
    var remained: nat := |stream|;
    var docNum: nat := 0;
    while remained > 0
      invariant processed + remained == |stream|
      invariant docNum <= n
      invariant remained > 0 ==> processed == docNum * MAX_DOCUMENT_SIZE && docNum < n
      invariant remained == 0 ==> docNum == n
      invariant w.events == s + ElementsTokens(docs[..docNum])
      decreases remained
    {
      var bytesToProcess := Min(MAX_DOCUMENT_SIZE, remained);
      var buffer := stream[processed .. processed + bytesToProcess];
      ghost var before := w.events;
      WriteChunk(w, buffer, docNum, remained - bytesToProcess == 0);
      DocumentStep(stream, docNum, processed, remained, s, before, w.events);
      remained := remained - bytesToProcess;
      processed := processed + bytesToProcess;
      docNum := docNum + 1;
    }
    assert docs[..n] == docs;
  }

  /** One turn of the loop writes document docNum after the ones before
      it; nothing remains after it iff it is the last. */
  lemma DocumentStep(stream: string, docNum: nat, processed: nat, remained: nat,
                     s: seq<Token>, before: seq<Token>, after: seq<Token>)
    requires remained > 0 && processed + remained == |stream|
    requires processed == docNum * MAX_DOCUMENT_SIZE
    requires before == s + ElementsTokens(Documents(stream, MAX_DOCUMENT_SIZE)[..docNum])
    requires after == before + ChunkEvents(stream[processed .. processed + Min(MAX_DOCUMENT_SIZE, remained)],
                                           docNum, remained - Min(MAX_DOCUMENT_SIZE, remained) == 0)
    ensures docNum < NumDocs(|stream|, MAX_DOCUMENT_SIZE)
    ensures (remained <= MAX_DOCUMENT_SIZE) <==> docNum + 1 == NumDocs(|stream|, MAX_DOCUMENT_SIZE)
    ensures after == s + ElementsTokens(Documents(stream, MAX_DOCUMENT_SIZE)[..docNum + 1])
  {
    var docs := Documents(stream, MAX_DOCUMENT_SIZE);
    var buffer := stream[processed .. processed + Min(MAX_DOCUMENT_SIZE, remained)];
    PieceStep(stream, docNum, processed, remained);
    var last := remained - Min(MAX_DOCUMENT_SIZE, remained) == 0;
    assert last == (docNum == |docs| - 1);
    ChunkEventsAreTokens(buffer, docNum, last);
    assert docs[docNum] == ChunkJson(buffer, docNum, last);
    ElementsSnoc(docs, docNum);
    Assoc(s, ElementsTokens(docs[..docNum]), Tokens(docs[docNum]));
  }

  /** The events of one document. */
  method WriteChunk(w: Writer, buffer: string, docNum: nat, last: bool)
    modifies w
    ensures w.events == old(w.events) + ChunkEvents(buffer, docNum, last)
  {
    ghost var e0 := w.events;
    w.Emit(StartObject);
    w.Emit(Key(COMPRESSED_INFERENCE_MODEL));
    w.Emit(StartObject);
    w.Emit(Key(DOC_NUM));
    ghost var e1 := w.events;
    assert e1 == e0 + [StartObject, Key(COMPRESSED_INFERENCE_MODEL), StartObject, Key(DOC_NUM)];
    w.Emit(Uint(docNum));
    w.Emit(Key(DEFINITION));
    w.Emit(Str(buffer));
    ghost var e2 := w.events;
    assert e2 == e1 + [Uint(docNum), Key(DEFINITION), Str(buffer)];
    if last {
      w.Emit(Key(EOS));
      w.Emit(Bool(true));
    }
    ghost var eos: seq<Token> := if last then [Key(EOS), Bool(true)] else [];
    ghost var e3 := w.events;
    assert e3 == e2 + eos;
    w.Emit(EndObject);
    w.Emit(EndObject);
    assert w.events == e3 + [EndObject, EndObject];
    ChunkEventsSplit(e0, buffer, docNum, last);
  }

  lemma ChunkEventsSplit(e0: seq<Token>, buffer: string, docNum: nat, last: bool)
    ensures e0 + [StartObject, Key(COMPRESSED_INFERENCE_MODEL), StartObject, Key(DOC_NUM)]
              + [Uint(docNum), Key(DEFINITION), Str(buffer)]
              + (if last then [Key(EOS), Bool(true)] else [])
              + [EndObject, EndObject]
            == e0 + ChunkEvents(buffer, docNum, last)
  {
  }

  /** One turn of the loop cuts piece docNum, and it is the last one iff
      nothing remains after it. */
  lemma PieceStep(stream: string, docNum: nat, processed: nat, remained: nat)
    requires remained > 0 && processed + remained == |stream|
    requires processed == docNum * MAX_DOCUMENT_SIZE
    ensures docNum < NumDocs(|stream|, MAX_DOCUMENT_SIZE)
    ensures stream[processed .. processed + Min(MAX_DOCUMENT_SIZE, remained)] ==
            Piece(stream, MAX_DOCUMENT_SIZE, docNum)
    ensures (remained <= MAX_DOCUMENT_SIZE) <==> docNum == NumDocs(|stream|, MAX_DOCUMENT_SIZE) - 1
  {
    var m := MAX_DOCUMENT_SIZE;
    var n := NumDocs(|stream|, m);
    assert (docNum + 1) * m == processed + m;
    if docNum >= n {
      assert docNum * m >= n * m by { LessMul(n, docNum, m); }
      assert false;
    }
    if remained <= m {
      // (n - 1) * m < |stream| <= (docNum + 1) * m, so n - 1 < docNum + 1
      if docNum < n - 1 {
        LessMul(docNum + 1, n - 1, m);
        assert false;
      }
    }
  }

  lemma LessMul(a: nat, b: nat, m: nat)
    requires a <= b
    ensures a * m <= b * m
  {
  }

  // ---------------------------------------------------------------------
  // Properties of the pieces and the documents.

  /** The pieces in order, concatenated. */
  function Concat(ps: seq<string>, k: nat): string
    requires k <= |ps|
  {
    if k == 0 then [] else Concat(ps, k - 1) + ps[k - 1]
  }

  lemma {:induction false} ConcatPrefix(stream: string, m: nat, k: nat)
    requires m > 0 && k <= NumDocs(|stream|, m)
    ensures Concat(Pieces(stream, m), k) == stream[..Min(k * m, |stream|)]
  {
    if k > 0 {
      ConcatPrefix(stream, m, k - 1);
      LessMul(k - 1, NumDocs(|stream|, m) - 1, m);
      assert (k - 1) * m + m == k * m;
      var a := stream[..Min((k - 1) * m, |stream|)];
      var b := Piece(stream, m, k - 1);
      assert a + b == stream[..Min(k * m, |stream|)];
    }
  }

  /** The pieces: as many as the length needs, each at most m long, all
      but the last exactly m long, concatenating to the stream. */
  lemma PiecesCorrect(stream: string, m: nat)
    requires m > 0
    ensures |stream| == 0 <==> |Pieces(stream, m)| == 0
    ensures |Pieces(stream, m)| * m >= |stream|
    ensures |Pieces(stream, m)| > 0 ==> (|Pieces(stream, m)| - 1) * m < |stream|
    ensures forall i :: 0 <= i < |Pieces(stream, m)| ==> 0 < |Pieces(stream, m)[i]| <= m
    ensures forall i :: 0 <= i < |Pieces(stream, m)| - 1 ==> |Pieces(stream, m)[i]| == m
    ensures Concat(Pieces(stream, m), |Pieces(stream, m)|) == stream
  {
    var n := NumDocs(|stream|, m);
    forall i | 0 <= i < n
      ensures 0 < |Piece(stream, m, i)| <= m
      ensures i < n - 1 ==> |Piece(stream, m, i)| == m
    {
      LessMul(i, n - 1, m);
      assert (i + 1) * m == i * m + m;
      if i < n - 1 {
        LessMul(i + 1, n - 1, m);
      }
    }
    ConcatPrefix(stream, m, n);
  }

  /** Document i carries number i and the i-th piece, and eos iff it is
      the last document. */
  lemma DocumentsNumbered(stream: string, m: nat, i: nat)
    requires m > 0 && i < |Documents(stream, m)|
    ensures Documents(stream, m)[i] == ChunkJson(Pieces(stream, m)[i], i, i == |Documents(stream, m)| - 1)
  {
  }

  lemma ChunkRoundTrip(piece: string, docNum: nat, last: bool)
    ensures DecodeChunk(ChunkJson(piece, docNum, last)) == Some((docNum, piece, last))
  {
  }

  /** The documents written one after another are well-formed JSON
      texts. */
  lemma {:induction false} ElementsAreDocuments(es: seq<Json>)
    ensures Document(ElementsTokens(es))
  {
    if |es| > 0 {
      ValueIsDocument(es[0]);
      ElementsAreDocuments(es[1..]);
      DocumentConcat(Tokens(es[0]), ElementsTokens(es[1..]));
    }
  }

  lemma ExportIsDocument(stream: string)
    ensures Document(ElementsTokens(Documents(stream, MAX_DOCUMENT_SIZE)))
    ensures |stream| == 0 ==> ElementsTokens(Documents(stream, MAX_DOCUMENT_SIZE)) == []
  {
    ElementsAreDocuments(Documents(stream, MAX_DOCUMENT_SIZE));
  }
}
