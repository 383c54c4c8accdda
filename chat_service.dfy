/** `ChatService.answer` (server/src/chat/chat.service.ts): embed the question through the
    rag-engine, query Chroma, compose a context-only answer from the top documents and zip
    the query's parallel arrays into hits. The two remote calls are passed in as functions. */
module ChatAnswer {
  import opened Outcomes
  import opened Seqs
  import opened Text
  import opened JsonValues
  import opened ServerErrors

  /** The request body; `None` is an absent (undefined) field. */
  datatype AnswerParams = AnswerParams(collection: string, question: string, topK: Option<int>, includeFields: Option<seq<string>>)

  /** The arguments handed to `ChromaService.queryCollection`. */
  datatype QueryRequest = QueryRequest(name: string, queryEmbeddings: seq<Json>, nResults: int, includeFields: seq<string>)

  /** One entry of `contexts`; `JNull` stands for `null`. */
  datatype Hit = Hit(id: Json, document: Json, metadata: Json, distance: Json)

  datatype AnswerResult = AnswerResult(answer: string, contexts: seq<Hit>)

  /** Chroma's query response: an object whose fields hold one list per query embedding. */
  type QueryReply = map<string, Json>

  const DefaultTopK := 5
  const DefaultInclude := ["documents", "metadatas", "distances"]
  const ContextSeparator := "\n---\n"
  const ContextCut := 3
  const AnswerPrefix := "컨텍스트 기반 답변(베타):\n"
  const NotFound := "관련 문서를 찾지 못했습니다."

  /** The query embeddings: the reply's `embeddings` when it is an array, otherwise none. */
  function QueryEmbeddings(data: Json): (r: seq<Json>)
    ensures HasArrayMember(data, "embeddings") ==> r == data.fields["embeddings"].items
    ensures !HasArrayMember(data, "embeddings") ==> r == []
  {
    if HasArrayMember(data, "embeddings") then data.fields["embeddings"].items else []
  }

  /** The Chroma query made for a question, after the defaults are applied. */
  function QueryFor(p: AnswerParams, embedReply: Json): (q: QueryRequest)
    ensures q.name == p.collection && q.queryEmbeddings == QueryEmbeddings(embedReply)
    ensures q.nResults == (if p.topK.Some? then p.topK.value else 5)
    ensures p.includeFields.None? ==> q.includeFields == ["documents", "metadatas", "distances"]
    ensures p.includeFields.Some? ==> q.includeFields == p.includeFields.value
  {
    QueryRequest(p.collection, QueryEmbeddings(embedReply), p.topK.GetOr(DefaultTopK), p.includeFields.GetOr(DefaultInclude))
  }

  /** `result[key][0]` when `result[key]` is an array whose first element is an array. */
  function FirstRow(reply: QueryReply, key: string): (r: Option<seq<Json>>)
    ensures r.Some? <==> key in reply && reply[key].JArray? && reply[key].items != [] && reply[key].items[0].JArray?
  {
    if key in reply && reply[key].JArray? && reply[key].items != [] && reply[key].items[0].JArray?
    then Some(reply[key].items[0].items)
    else None
  }

  /** The string documents of a row, in rank order (`filter(d => typeof d === 'string')`).
      What survives is stated by `StringDocsMembers`, and the order by `StringDocsAppend`. */
  function StringDocs(row: seq<Json>): (r: seq<string>)
    ensures |r| <= |row|
  {
    if row == [] then []
    else (if row[0].JString? then [row[0].s] else []) + StringDocs(row[1..])
  }

  /** Exactly the strings of the row survive, and every one of them does. */
  lemma {:induction false} StringDocsMembers(row: seq<Json>, s: string)
    ensures s in StringDocs(row) <==> JString(s) in row
  {
    if row != [] {
      StringDocsMembers(row[1..], s);
      assert row == [row[0]] + row[1..];
    }
  }

  /** Later documents only add string documents after the earlier ones. */
  lemma {:induction false} StringDocsAppend(a: seq<Json>, b: seq<Json>)
    ensures StringDocs(a + b) == StringDocs(a) + StringDocs(b)
  {
    if a == [] {
      assert a + b == b;
    } else {
      var head := if a[0].JString? then [a[0].s] else [];
      assert (a + b)[0] == a[0] && (a + b)[1..] == a[1..] + b;
      assert StringDocs(a + b) == head + StringDocs(a[1..] + b);
      assert StringDocs(a) == head + StringDocs(a[1..]);
      StringDocsAppend(a[1..], b);
    }
  }

  /** The context: the first three string documents joined by "\n---\n". It is empty only
      when there is no string document, or just one and that one is empty; otherwise it
      starts with the first string document. */
  function Context(row: seq<Json>): (context: string)
    ensures context == "" <==> StringDocs(row) == [] || StringDocs(row) == [""]
    ensures StringDocs(row) != [] ==> StringDocs(row)[0] <= context
  {
    var docs := Take(StringDocs(row), ContextCut);
    JoinEmpty(docs, ContextSeparator);
    Join(docs, ContextSeparator)
  }

  /** Once three string documents are present, nothing ranked after them reaches the context. */
  lemma ContextIgnoresLaterDocs(row: seq<Json>, later: seq<Json>)
    requires |StringDocs(row)| >= 3
    ensures Context(row + later) == Context(row)
  {
    StringDocsAppend(row, later);
    var s, l := StringDocs(row), StringDocs(later);
    assert (s + l)[..3] == s[..3];
    assert Take(s + l, ContextCut) == s[..3];
    assert Take(s, ContextCut) == s[..3];
  }

  /** Three pieces joined: the separator between each pair. */
  lemma JoinThree(a: string, b: string, c: string, sep: string)
    ensures Join([a, b, c], sep) == a + sep + b + sep + c
  {
    assert [a, b, c][1..] == [b, c] && [b, c][1..] == [c];
    assert Join([b, c], sep) == b + sep + c;
  }

  /** Two pieces joined: the separator between them. */
  lemma JoinTwo(a: string, b: string, sep: string)
    ensures Join([a, b], sep) == a + sep + b
  {
    assert [a, b][1..] == [b];
  }

  /** A `null` in a row of strings is skipped and the strings keep their order. */
  lemma StringDocsExample(a: string, b: string, c: string, d: string)
    ensures StringDocs([JString(a), JNull, JString(b), JString(c), JString(d)]) == [a, b, c, d]
  {
    StringDocsCons(JString(d), []);
    StringDocsCons(JString(c), [JString(d)]);
    StringDocsCons(JString(b), [JString(c), JString(d)]);
    StringDocsCons(JNull, [JString(b), JString(c), JString(d)]);
    StringDocsCons(JString(a), [JNull, JString(b), JString(c), JString(d)]);
  }

  /** The first entry contributes its text when it is a string, and nothing otherwise. */
  lemma StringDocsCons(x: Json, rest: seq<Json>)
    ensures StringDocs([x] + rest) == (if x.JString? then [x.s] else []) + StringDocs(rest)
  {
    assert ([x] + rest)[1..] == rest;
  }

  /** Non-strings are removed before the cut: a `null` at rank 1 lets the document at rank 3 in. */
  lemma NullDoesNotTakeASlot(a: string, b: string, c: string, d: string)
    ensures Context([JString(a), JNull, JString(b), JString(c), JString(d)])
      == a + "\n---\n" + b + "\n---\n" + c
  {
    StringDocsExample(a, b, c, d);
    assert Take([a, b, c, d], ContextCut) == [a, b, c];
    JoinThree(a, b, c, ContextSeparator);
  }

  /** The answer text: the fixed prefix followed by the context, or the fixed "not found"
      sentence when the context is empty. */
  function ComposeAnswer(context: string): (answer: string)
    ensures answer == NotFound <==> context == ""
    ensures context != "" ==>
      |answer| == |AnswerPrefix| + |context| && answer[..|AnswerPrefix|] == AnswerPrefix && answer[|AnswerPrefix|..] == context
  {
    if context != "" then AnswerPrefix + context else NotFound
  }

  /** Entry `i` of an optional row; a missing row, a missing entry and `null` all give `null`. */
  function EntryOrNull(row: Option<seq<Json>>, i: nat): (e: Json)
    ensures row.Some? && i < |row.value| ==> e == row.value[i]
    ensures row.None? || i >= |row.value| ==> e == JNull
  {
    if row.Some? && i < |row.value| then row.value[i] else JNull
  }

  /** The ids of the first (only) query, or none. */
  function IdsRow(reply: QueryReply): seq<Json> {
    FirstRow(reply, "ids").GetOr([])
  }

  /** One hit per id, in order, each taking the same index of the other three rows. */
  function Hits(reply: QueryReply): (hits: seq<Hit>)
    ensures |hits| == |IdsRow(reply)|
    ensures forall i :: 0 <= i < |hits| ==> hits[i].id == IdsRow(reply)[i]
    ensures forall i :: 0 <= i < |hits| ==>
      hits[i].document == EntryOrNull(FirstRow(reply, "documents"), i) &&
      hits[i].metadata == EntryOrNull(FirstRow(reply, "metadatas"), i) &&
      hits[i].distance == EntryOrNull(FirstRow(reply, "distances"), i)
  {
    var ids := IdsRow(reply);
    seq(|ids|, i requires 0 <= i < |ids| =>
      Hit(ids[i],
          EntryOrNull(FirstRow(reply, "documents"), i),
          EntryOrNull(FirstRow(reply, "metadatas"), i),
          EntryOrNull(FirstRow(reply, "distances"), i)))
  }

  /** Zipping loses nothing: when all four rows have the ids' length, projecting the hits
      gives the rows back, `null` entries included. */
  lemma HitsUnzip(reply: QueryReply)
    requires FirstRow(reply, "ids").Some? && FirstRow(reply, "documents").Some?
    requires FirstRow(reply, "metadatas").Some? && FirstRow(reply, "distances").Some?
    requires var n := |IdsRow(reply)|;
      |FirstRow(reply, "documents").value| == n && |FirstRow(reply, "metadatas").value| == n &&
      |FirstRow(reply, "distances").value| == n
    ensures Map(Hits(reply), (h: Hit) => h.id) == IdsRow(reply)
    ensures Map(Hits(reply), (h: Hit) => h.document) == FirstRow(reply, "documents").value
    ensures Map(Hits(reply), (h: Hit) => h.metadata) == FirstRow(reply, "metadatas").value
    ensures Map(Hits(reply), (h: Hit) => h.distance) == FirstRow(reply, "distances").value
  {
  }

  /** A missing or malformed row never fails the zip: that field is `null` in every hit. */
  lemma MissingRowIsNull(reply: QueryReply, key: string)
    requires key in {"documents", "metadatas", "distances"}
    requires FirstRow(reply, key).None?
    ensures forall h :: h in Hits(reply) ==>
      (key == "documents" ==> h.document == JNull) &&
      (key == "metadatas" ==> h.metadata == JNull) &&
      (key == "distances" ==> h.distance == JNull)
  {
  }

  /** A row shorter than the ids gives `null` in the hits past its end. */
  lemma ShortRowIsNull(reply: QueryReply, i: nat)
    requires i < |IdsRow(reply)|
    requires FirstRow(reply, "documents").Some? && i >= |FirstRow(reply, "documents").value|
    ensures Hits(reply)[i].document == JNull
    ensures Hits(reply)[i].id == IdsRow(reply)[i]
  {
  }

  /** `answer`: the embedding call is made with `[question]`, then the Chroma query; either
      call's rejection propagates. */
  function Answer(p: AnswerParams, embed: seq<string> -> Result<Json, Failure>,
                  query: QueryRequest -> Result<QueryReply, Failure>): (r: Result<AnswerResult, Failure>)
    ensures embed([p.question]).Err? ==> r == Err(embed([p.question]).error)
    ensures embed([p.question]).Ok? && query(QueryFor(p, embed([p.question]).value)).Err? ==>
      r == Err(query(QueryFor(p, embed([p.question]).value)).error)
    ensures r.Ok? <==> embed([p.question]).Ok? && query(QueryFor(p, embed([p.question]).value)).Ok?
    ensures r.Ok? ==>
      var reply := query(QueryFor(p, embed([p.question]).value)).value;
      r.value.contexts == Hits(reply) &&
      r.value.answer == ComposeAnswer(Context(FirstRow(reply, "documents").GetOr([])))
  {
    match embed([p.question])
    case Err(e) => Err(e)
    case Ok(data) =>
      match query(QueryFor(p, data))
      case Err(e) => Err(e)
      case Ok(reply) =>
        var context := Context(FirstRow(reply, "documents").GetOr([]));
        Ok(AnswerResult(ComposeAnswer(context), Hits(reply)))
  }

  /** Every hit is returned, not just the three that feed the context, and in id order. */
  lemma AnswerReturnsAllHits(p: AnswerParams, embed: seq<string> -> Result<Json, Failure>,
                             query: QueryRequest -> Result<QueryReply, Failure>)
    requires Answer(p, embed, query).Ok?
    ensures var reply := query(QueryFor(p, embed([p.question]).value)).value;
      var contexts := Answer(p, embed, query).value.contexts;
      |contexts| == |IdsRow(reply)| && forall i :: 0 <= i < |contexts| ==> contexts[i].id == IdsRow(reply)[i]
  {
  }

  /** With no string document at all (no hits, a missing `documents`, only `null`s) the answer
      is the "not found" sentence. */
  lemma NoDocumentsNotFound(p: AnswerParams, embed: seq<string> -> Result<Json, Failure>,
                            query: QueryRequest -> Result<QueryReply, Failure>)
    requires Answer(p, embed, query).Ok?
    requires var reply := query(QueryFor(p, embed([p.question]).value)).value;
      StringDocs(FirstRow(reply, "documents").GetOr([])) == []
    ensures Answer(p, embed, query).value.answer == NotFound
  {
  }

  /** Two string documents among the top three: the answer is the prefix and both, joined by
      the separator, and nothing else. */
  lemma TwoDocumentsAnswer(row: seq<Json>, a: string, b: string)
    requires StringDocs(row) == [a, b]
    ensures ComposeAnswer(Context(row)) == AnswerPrefix + a + "\n---\n" + b
  {
    TwoDocumentsContext(row, a, b);
    NonEmptyAnswer(a + ContextSeparator + b);
    ConcatFour(AnswerPrefix, a, ContextSeparator, b);
  }

  /** A non-empty context is answered with the prefix followed by the context. */
  lemma NonEmptyAnswer(context: string)
    requires context != ""
    ensures ComposeAnswer(context) == AnswerPrefix + context
  {
  }

  /** Concatenation regrouped. */
  lemma ConcatFour(p: string, a: string, s: string, b: string)
    ensures p + (a + s + b) == p + a + s + b
  {
  }

  /** Two documents make the context the pair joined by the separator. */
  lemma TwoDocumentsContext(row: seq<Json>, a: string, b: string)
    requires StringDocs(row) == [a, b]
    ensures Context(row) == a + ContextSeparator + b
  {
    assert Take([a, b], ContextCut) == [a, b];
    JoinTwo(a, b, ContextSeparator);
  }
}
