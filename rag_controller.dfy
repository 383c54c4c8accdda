/** The NestJS `RagController` (server/src/rag/rag.controller.ts): single ingestion, and
    batch ingestion of an uploaded `.txt`, `.jsonl` or `.json` file, both forwarding to the
    rag-engine's `/rag/ingest` endpoint. */
module RagIngest {
  import opened Outcomes
  import opened Seqs
  import opened Text
  import opened JsonValues
  import opened ServerErrors

  /** One conversation: the message list sent to the engine. Element types are not checked
      by the controller, so a message may be any JSON value. */
  type Conversation = seq<Json>

  /** The body of the engine's answer to `/rag/ingest`. */
  datatype EngineReply = EngineReply(id: string, text: string, vectorDim: Option<int>)

  /** What the batch endpoint reports per conversation: `{id, vector_dim}`. */
  datatype IngestItem = IngestItem(id: string, vectorDim: Option<int>)

  /** The batch endpoint's answer `{count, items}`. */
  datatype BatchReply = BatchReply(count: int, items: seq<IngestItem>)

  /** The multipart upload: `originalname`, and `buffer` already decoded as UTF-8 text. */
  datatype UploadedFile = UploadedFile(originalname: Option<string>, buffer: Option<string>)

  /** Which branch of the extension dispatch a file name takes. */
  datatype Format = Txt | Jsonl | JsonDoc | Unsupported

  const MessagesRequired := "messages[] is required"
  const FileRequired := "file is required"
  const EmptyTxt := "empty txt"
  const InvalidJsonlLine := "invalid jsonl line"
  const InvalidJson := "invalid json"
  const UnsupportedType := "unsupported file type (.txt/.json/.jsonl)"

  /** The single-ingest check: `messages` is an array with at least one element. */
  predicate HasMessages(body: Json)
    ensures HasMessages(body) ==>
      body.JObject? && "messages" in body.fields && body.fields["messages"].JArray? && body.fields["messages"].items != []
    ensures !body.JObject? ==> !HasMessages(body)
    ensures body.JObject? && "messages" in body.fields && body.fields["messages"] == JArray([]) ==> !HasMessages(body)
  {
    HasArrayMember(body, "messages") && body.fields["messages"].items != []
  }

  // ---------------------------------------------------------------- format dispatch

  /** The format chosen from the lower-cased name, trying `.txt`, `.jsonl`, `.json` in turn. */
  function FormatOf(originalname: string): (f: Format)
    ensures f == Txt <==> EndsWith(ToLowerAscii(originalname), ".txt")
    ensures f == Jsonl <==> !EndsWith(ToLowerAscii(originalname), ".txt") && EndsWith(ToLowerAscii(originalname), ".jsonl")
    ensures f == Unsupported <==>
      !EndsWith(ToLowerAscii(originalname), ".txt") && !EndsWith(ToLowerAscii(originalname), ".jsonl") &&
      !EndsWith(ToLowerAscii(originalname), ".json")
  {
    var name := ToLowerAscii(originalname);
    if EndsWith(name, ".txt") then Txt
    else if EndsWith(name, ".jsonl") then Jsonl
    else if EndsWith(name, ".json") then JsonDoc
    else Unsupported
  }

  /** Lower-casing works character by character, so it distributes over concatenation. */
  lemma LowerAppend(a: string, b: string)
    ensures ToLowerAscii(a + b) == ToLowerAscii(a) + ToLowerAscii(b)
  {
    assert forall i :: 0 <= i < |a + b| ==>
      ToLowerAscii(a + b)[i] == (ToLowerAscii(a) + ToLowerAscii(b))[i];
  }

  /** A name ending in `ext` ends, once lower-cased, in `ext` lower-cased. */
  lemma LowerKeepsExtension(stem: string, ext: string)
    ensures EndsWith(ToLowerAscii(stem + ext), ToLowerAscii(ext))
  {
    LowerAppend(stem, ext);
    var l := ToLowerAscii(stem + ext);
    assert l[|l| - |ext|..] == ToLowerAscii(ext);
  }

  /** Any letter case of `.txt` selects the text branch, whatever comes before it. */
  lemma TxtByExtension(stem: string, ext: string)
    requires ToLowerAscii(ext) == ".txt"
    ensures FormatOf(stem + ext) == Txt
  {
    LowerKeepsExtension(stem, ext);
  }

  /** Any letter case of `.jsonl` selects the JSON-Lines branch. */
  lemma JsonlByExtension(stem: string, ext: string)
    requires ToLowerAscii(ext) == ".jsonl"
    ensures FormatOf(stem + ext) == Jsonl
  {
    LowerKeepsExtension(stem, ext);
    var l := ToLowerAscii(stem + ext);
    assert l[|l| - 1] == 'l';
  }

  /** Any letter case of `.json` selects the JSON branch. */
  lemma JsonByExtension(stem: string, ext: string)
    requires ToLowerAscii(ext) == ".json"
    ensures FormatOf(stem + ext) == JsonDoc
  {
    LowerKeepsExtension(stem, ext);
    var l := ToLowerAscii(stem + ext);
    assert l[|l| - 1] == 'n';
  }

  // ---------------------------------------------------------------- .txt

  /** The non-blank lines of the text, trimmed, in order (`split(/\r?\n/).map(trim).filter(Boolean)`). */
  function TrimmedLines(text: string): (r: seq<string>)
    ensures forall i :: 0 <= i < |r| ==> r[i] != [] && Strip(r[i], IsJsSpace) == r[i]
  {
    CleanLinesStripped(SplitCRLF(text), IsJsSpace);
    CleanLines(SplitCRLF(text), IsJsSpace)
  }

  /** The first line runs up to the first "\n" and is trimmed, or dropped when blank; the
      rest of the text is split on its own. */
  lemma TrimmedLinesAt(a: string, b: string)
    requires '\n' !in a
    ensures TrimmedLines(a + "\n" + b) == CleanLines([a], IsJsSpace) + TrimmedLines(b)
  {
    CleanSplitCRLFAt(a, b, IsJsSpace);
  }

  /** "\r\n" ends a line just as "\n" does. */
  lemma TrimmedLinesAtCRLF(a: string, b: string)
    requires '\n' !in a
    ensures TrimmedLines(a + "\r\n" + b) == CleanLines([a], IsJsSpace) + TrimmedLines(b)
  {
    SplitCRLFAtCRLF(a, b);
    CleanLinesAppend([a], SplitCRLF(b), IsJsSpace);
  }

  /** The text after the last "\n" is the last line, trimmed, or nothing when blank. */
  lemma TrimmedLinesLast(a: string)
    requires '\n' !in a
    ensures TrimmedLines(a) == CleanLines([a], IsJsSpace)
  {
    SplitCRLFLast(a);
  }

  /** A `.txt` upload: one conversation of its lines, or "empty txt" when none is non-blank. */
  function TxtConversations(text: string): (r: Result<seq<Conversation>, Failure>)
    ensures r.Err? <==> TrimmedLines(text) == []
    ensures r.Err? ==> r.error == BadRequest(EmptyTxt)
    ensures r.Ok? ==> |r.value| == 1 && |r.value[0]| == |TrimmedLines(text)|
    ensures r.Ok? ==> forall i :: 0 <= i < |r.value[0]| ==> r.value[0][i] == JString(TrimmedLines(text)[i])
  {
    var lines := TrimmedLines(text);
    if lines == [] then Err(BadRequest(EmptyTxt))
    else Ok([Map(lines, (l: string) => JString(l))])
  }

  /** Trimmed non-blank lines written one per line come back as the same messages, in order. */
  lemma TxtRoundTrip(lines: seq<string>)
    requires lines != []
    requires forall i :: 0 <= i < |lines| ==>
      lines[i] != [] && '\n' !in lines[i] && !IsJsSpace(lines[i][0]) && !IsJsSpace(lines[i][|lines[i]| - 1])
    ensures TxtConversations(Join(lines, "\n")) == Ok([Map(lines, (l: string) => JString(l))])
  {
    SplitCRLFJoin(lines);
    CleanLinesFixed(lines, IsJsSpace);
  }

  // ---------------------------------------------------------------- .jsonl

  /** The conversation one parsed `.jsonl` line stands for. */
  function LineConversation(v: Json): (r: Result<Conversation, Failure>)
    ensures v.JArray? ==> r == Ok(v.items)
    ensures v.JNull? ==> r == Err(TypeError)
    ensures HasArrayMember(v, "messages") ==> r == Ok(v.fields["messages"].items)
    ensures !HasArrayMember(v, "messages") && HasStringMember(v, "q") && HasStringMember(v, "a") ==>
      r == Ok([JString("Q: " + v.fields["q"].s), JString("A: " + v.fields["a"].s)])
    ensures r == Err(BadRequest(InvalidJsonlLine)) <==>
      !v.JArray? && !v.JNull? && !HasArrayMember(v, "messages") && !(HasStringMember(v, "q") && HasStringMember(v, "a"))
    ensures r.Ok? && !v.JArray? && !HasArrayMember(v, "messages") ==>
      r.value == [JString("Q: " + v.fields["q"].s), JString("A: " + v.fields["a"].s)]
  {
    if v.JArray? then Ok(v.items)
    else if v.JNull? then Err(TypeError)
    else if HasArrayMember(v, "messages") then Ok(v.fields["messages"].items)
    else if HasStringMember(v, "q") && HasStringMember(v, "a") then
      Ok([JString("Q: " + v.fields["q"].s), JString("A: " + v.fields["a"].s)])
    else Err(BadRequest(InvalidJsonlLine))
  }

  /** One `.jsonl` line parsed and turned into a conversation. */
  function LineResult(line: string, parse: string -> Option<Json>): (r: Result<Conversation, Failure>)
    ensures parse(line).None? ==> r == Err(SyntaxError)
    ensures parse(line).Some? ==> r == LineConversation(parse(line).value)
    ensures r.Err? ==> r.error in {SyntaxError, TypeError, BadRequest(InvalidJsonlLine)}
  {
    match parse(line)
    case None => Err(SyntaxError)
    case Some(v) => LineConversation(v)
  }

  /** The conversations of the given `.jsonl` lines, failing with the first bad line's error. */
  function JsonlConversations(lines: seq<string>, parse: string -> Option<Json>): (r: Result<seq<Conversation>, Failure>)
    ensures r.Ok? ==> |r.value| == |lines|
    ensures r.Err? ==> r.error in {SyntaxError, TypeError, BadRequest(InvalidJsonlLine)}
  {
    if lines == [] then Ok([])
    else
      match LineResult(lines[0], parse)
      case Err(e) => Err(e)
      case Ok(c) =>
        match JsonlConversations(lines[1..], parse)
        case Err(e) => Err(e)
        case Ok(rest) => Ok([c] + rest)
  }

  /** The `.jsonl` result succeeds exactly when every line does; then conversation `i` is line `i`'s. */
  lemma {:induction false} JsonlPerLine(lines: seq<string>, parse: string -> Option<Json>)
    ensures JsonlConversations(lines, parse).Ok? <==>
      forall i :: 0 <= i < |lines| ==> LineResult(lines[i], parse).Ok?
    ensures JsonlConversations(lines, parse).Ok? ==>
      forall i :: 0 <= i < |lines| ==> JsonlConversations(lines, parse).value[i] == LineResult(lines[i], parse).value
  {
    if lines != [] {
      JsonlPerLine(lines[1..], parse);
      assert forall i :: 1 <= i < |lines| ==> lines[i] == lines[1..][i - 1];
    }
  }

  /** A failing `.jsonl` result carries the error of its first failing line `k`: nothing is skipped. */
  lemma {:induction false} JsonlFirstFailure(lines: seq<string>, parse: string -> Option<Json>) returns (k: nat)
    requires JsonlConversations(lines, parse).Err?
    ensures k < |lines|
    ensures forall i :: 0 <= i < k ==> LineResult(lines[i], parse).Ok?
    ensures LineResult(lines[k], parse) == Err(JsonlConversations(lines, parse).error)
  {
    if LineResult(lines[0], parse).Err? {
      k := 0;
    } else {
      var j := JsonlFirstFailure(lines[1..], parse);
      k := j + 1;
      assert forall i :: 1 <= i < k ==> lines[i] == lines[1..][i - 1];
    }
  }

  /** The `for (const ln of lines)` loop of the `.jsonl` branch, pushing onto `conversations`. */
  method ParseJsonl(lines: seq<string>, parse: string -> Option<Json>) returns (r: Result<seq<Conversation>, Failure>)
    ensures r == JsonlConversations(lines, parse)
  {
    var conversations: seq<Conversation> := [];
    var i := 0;
    assert lines[0..] == lines;
    assert forall rest: seq<Conversation> :: [] + rest == rest;
    while i < |lines|
      invariant 0 <= i <= |lines|
      invariant JsonlConversations(lines, parse) == Prefixed(conversations, JsonlConversations(lines[i..], parse))
    {
      ghost var tail := lines[i..];
      assert tail[0] == lines[i] && tail[1..] == lines[i + 1..];
      var obj := parse(lines[i]);
      if obj.None? {
        return Err(SyntaxError);
      }
      var c := LineConversation(obj.value);
      if c.Err? {
        return Err(c.error);
      }
      ghost var next := JsonlConversations(lines[i + 1..], parse);
      assert next.Ok? ==> conversations + ([c.value] + next.value) == (conversations + [c.value]) + next.value;
      conversations := conversations + [c.value];
      i := i + 1;
    }
    assert lines[i..] == [];
    assert conversations + [] == conversations;
    r := Ok(conversations);
  }

  /** `prefix` put in front of a successful result; an error passes through. */
  function Prefixed<T, E>(prefix: seq<T>, r: Result<seq<T>, E>): Result<seq<T>, E> {
    match r
    case Err(e) => Err(e)
    case Ok(rest) => Ok(prefix + rest)
  }

  // ---------------------------------------------------------------- .json

  /** A `.json` upload: an all-string array is one conversation, an all-array array is one
      conversation per inner array, and anything else is "invalid json". */
  function JsonConversations(text: string, parse: string -> Option<Json>): (r: Result<seq<Conversation>, Failure>)
    ensures parse(text).None? <==> r == Err(SyntaxError)
    ensures r.Err? ==> r.error == SyntaxError || r.error == BadRequest(InvalidJson)
    ensures r.Ok? ==> parse(text).value.JArray?
    ensures (parse(text).Some? && parse(text).value.JArray? &&
             (forall x :: x in parse(text).value.items ==> x.JString?)) ==>
      r == Ok([parse(text).value.items])
    ensures (parse(text).Some? && parse(text).value.JArray? &&
             (exists x :: x in parse(text).value.items && !x.JString?) &&
             (forall x :: x in parse(text).value.items ==> x.JArray?)) ==>
      r.Ok? && |r.value| == |parse(text).value.items| &&
      forall i :: 0 <= i < |r.value| ==> parse(text).value.items[i] == JArray(r.value[i])
    ensures r == Err(BadRequest(InvalidJson)) <==>
      (parse(text).Some? &&
       !(parse(text).value.JArray? &&
         ((forall x :: x in parse(text).value.items ==> x.JString?) ||
          (forall x :: x in parse(text).value.items ==> x.JArray?))))
  {
    match parse(text)
    case None => Err(SyntaxError)
    case Some(v) =>
      if v.JArray? && forall x :: x in v.items ==> x.JString? then Ok([v.items])
      else if v.JArray? && forall x :: x in v.items ==> x.JArray? then Ok(Map(v.items, (x: Json) => if x.JArray? then x.items else []))
      else Err(BadRequest(InvalidJson))
  }

  /** `[]` passes the all-strings test vacuously: one empty conversation. */
  lemma JsonEmptyArray(text: string, parse: string -> Option<Json>)
    requires parse(text) == Some(JArray([]))
    ensures JsonConversations(text, parse) == Ok([[]])
  {
  }

  // ---------------------------------------------------------------- the whole normaliser

  /** The conversations an upload turns into, or the error the endpoint raises before sending. */
  function Normalize(file: Option<UploadedFile>, parse: string -> Option<Json>): (r: Result<seq<Conversation>, Failure>)
    ensures r == Err(BadRequest(FileRequired)) <==>
      file.None? || file.value.buffer.None? || file.value.originalname.None? || file.value.originalname.value == ""
    ensures r == Err(BadRequest(UnsupportedType)) <==>
      file.Some? && file.value.buffer.Some? && file.value.originalname.Some? && file.value.originalname.value != "" &&
      FormatOf(file.value.originalname.value) == Unsupported
    ensures file.Some? && file.value.buffer.Some? && file.value.originalname.Some? && file.value.originalname.value != "" ==>
      match FormatOf(file.value.originalname.value)
      case Txt => r == TxtConversations(file.value.buffer.value)
      case Jsonl => r == JsonlConversations(TrimmedLines(file.value.buffer.value), parse)
      case JsonDoc => r == JsonConversations(file.value.buffer.value, parse)
      case Unsupported => true
  {
    if file.None? || file.value.buffer.None? || file.value.originalname.None? || file.value.originalname.value == "" then
      Err(BadRequest(FileRequired))
    else
      ParseAs(FormatOf(file.value.originalname.value), file.value.buffer.value, parse)
  }

  /** The conversations of an upload's text in the given format. */
  function ParseAs(format: Format, text: string, parse: string -> Option<Json>): (r: Result<seq<Conversation>, Failure>)
    ensures r != Err(BadRequest(FileRequired))
    ensures r == Err(BadRequest(UnsupportedType)) <==> format == Unsupported
  {
    match format
    case Txt => TxtConversations(text)
    case Jsonl => JsonlConversations(TrimmedLines(text), parse)
    case JsonDoc => JsonConversations(text, parse)
    case Unsupported => Err(BadRequest(UnsupportedType))
  }

  /** A blank `.jsonl` file is zero conversations, not an error. */
  lemma BlankJsonlIsEmpty(name: string, text: string, parse: string -> Option<Json>)
    requires name != "" && FormatOf(name) == Jsonl && TrimmedLines(text) == []
    ensures Normalize(Some(UploadedFile(Some(name), Some(text))), parse) == Ok([])
  {
  }

  // ---------------------------------------------------------------- sending

  /** A batch body holds only the conversation, as `messages`, and the metadata source
      "upload"; it would pass the single-ingest check exactly when the conversation is not
      empty. */
  lemma PayloadShape(c: Conversation)
    ensures Payload(c).JObject? && Payload(c).fields.Keys == {"messages", "metadata"}
    ensures Payload(c).fields["messages"] == JArray(c)
    ensures Payload(c).fields["metadata"] == JObject(map["source" := JString("upload")])
    ensures HasMessages(Payload(c)) <==> c != []
  {
    assert "messages" in Payload(c).fields;
  }

  /** The body posted for one conversation of a batch. */
  function Payload(c: Conversation): Json {
    JObject(map["messages" := JArray(c), "metadata" := JObject(map["source" := JString("upload")])])
  }

  /** What the batch endpoint keeps of one engine reply. */
  function ItemOf(d: EngineReply): IngestItem {
    IngestItem(d.id, d.vectorDim)
  }

  /** The outcome of sending conversations one at a time, and how many posts were made. */
  datatype Sent = Sent(result: Result<seq<IngestItem>, Failure>, posted: nat)

  /** The sending of the remaining conversations seen after `done` posts that produced `items`. */
  function After(items: seq<IngestItem>, done: nat, rest: Sent): Sent {
    Sent(Prefixed(items, rest.result), done + rest.posted)
  }

  /** Sending `convs` in order, from the engine's `start`-th request on, stopping at the first failure. */
  function SendAll(convs: seq<Conversation>, reply: (nat, Json) -> Result<EngineReply, Failure>, start: nat): (s: Sent)
    ensures 1 <= s.posted <= |convs| || (s.posted == 0 && convs == [])
    ensures s.result.Ok? ==> s.posted == |convs| && |s.result.value| == |convs|
  {
    if convs == [] then Sent(Ok([]), 0)
    else
      match reply(start, Payload(convs[0]))
      case Err(e) => Sent(Err(e), 1)
      case Ok(d) =>
        var rest := SendAll(convs[1..], reply, start + 1);
        After([ItemOf(d)], 1, rest)
  }

  /** A successful batch has one item per conversation, item `i` taken from the `i`-th reply. */
  lemma {:induction false} SendAllItems(convs: seq<Conversation>, reply: (nat, Json) -> Result<EngineReply, Failure>, start: nat)
    requires SendAll(convs, reply, start).result.Ok?
    ensures forall i :: 0 <= i < |convs| ==>
      reply(start + i, Payload(convs[i])).Ok? &&
      SendAll(convs, reply, start).result.value[i] == ItemOf(reply(start + i, Payload(convs[i])).value)
  {
    if convs != [] {
      SendAllItems(convs[1..], reply, start + 1);
      assert forall i :: 1 <= i < |convs| ==> convs[i] == convs[1..][i - 1];
    }
  }

  /** A failed batch stops at its last post: every earlier reply succeeded and the last one's
      error is the batch's error. */
  lemma {:induction false} SendAllStopsAtFailure(convs: seq<Conversation>, reply: (nat, Json) -> Result<EngineReply, Failure>, start: nat)
    requires SendAll(convs, reply, start).result.Err?
    ensures var s := SendAll(convs, reply, start);
      (forall i :: 0 <= i < s.posted - 1 ==> reply(start + i, Payload(convs[i])).Ok?) &&
      reply(start + s.posted - 1, Payload(convs[s.posted - 1])) == Err(s.result.error)
  {
    if reply(start, Payload(convs[0])).Ok? {
      SendAllStopsAtFailure(convs[1..], reply, start + 1);
      assert forall i :: 1 <= i < |convs| ==> convs[i] == convs[1..][i - 1];
    }
  }

  /** The validation and format dispatch at the head of `ingestBatch`. */
  method NormalizeUpload(file: Option<UploadedFile>, parse: string -> Option<Json>) returns (r: Result<seq<Conversation>, Failure>)
    ensures r == Normalize(file, parse)
  {
    if file.None? || file.value.buffer.None? || file.value.originalname.None? || file.value.originalname.value == "" {
      return Err(BadRequest(FileRequired));
    }
    var text := file.value.buffer.value;
    match FormatOf(file.value.originalname.value)
    case Txt =>
      r := TxtConversations(text);
    case Jsonl =>
      r := ParseJsonl(TrimmedLines(text), parse);
    case JsonDoc =>
      r := JsonConversations(text, parse);
    case Unsupported =>
      r := Err(BadRequest(UnsupportedType));
  }

  /** The NestJS `HttpService` as the controller uses it: posts to `/rag/ingest`. `requests`
      holds every body posted, in order; `reply(k, body)` is the engine's answer to the
      `k`-th post, or the error the post rejects with. */
  class EngineClient {
    var requests: seq<Json>
    const reply: (nat, Json) -> Result<EngineReply, Failure>

    constructor (reply: (nat, Json) -> Result<EngineReply, Failure>)
      ensures requests == [] && this.reply == reply
    {
      requests := [];
      this.reply := reply;
    }

    method PostIngest(body: Json) returns (r: Result<EngineReply, Failure>)
      modifies this
      ensures requests == old(requests) + [body]
      ensures r == reply(|old(requests)|, body)
    {
      r := reply(|requests|, body);
      requests := requests + [body];
    }
  }

  /** One step of the send loop: the `i`-th post either ends the sending with its error after
      `i + 1` posts, or adds its item and moves on to the next conversation. */
  lemma SendStep(convs: seq<Conversation>, reply: (nat, Json) -> Result<EngineReply, Failure>, start: nat,
                 i: nat, results: seq<IngestItem>)
    requires i < |convs|
    ensures reply(start + i, Payload(convs[i])).Err? ==>
      After(results, i, SendAll(convs[i..], reply, start + i)) == Sent(Err(reply(start + i, Payload(convs[i])).error), i + 1)
    ensures reply(start + i, Payload(convs[i])).Ok? ==>
      After(results, i, SendAll(convs[i..], reply, start + i)) ==
      After(results + [ItemOf(reply(start + i, Payload(convs[i])).value)], i + 1, SendAll(convs[i + 1..], reply, start + i + 1))
  {
    var tail := convs[i..];
    assert tail[0] == convs[i] && tail[1..] == convs[i + 1..];
    var next := SendAll(convs[i + 1..], reply, start + i + 1);
    if next.result.Ok? {
      forall it ensures results + ([it] + next.result.value) == (results + [it]) + next.result.value { }
    }
  }

  class RagController {
    const engine: EngineClient

    constructor (engine: EngineClient)
      ensures this.engine == engine
    {
      this.engine := engine;
    }

    /** `POST /rag/ingest`: the body is forwarded unchanged when it has a non-empty
        `messages` array, and the engine's answer is returned as it is. */
    method Ingest(body: Json) returns (r: Result<EngineReply, Failure>)
      modifies engine
      ensures !HasMessages(body) ==>
        r == Err(BadRequest(MessagesRequired)) && engine.requests == old(engine.requests)
      ensures HasMessages(body) ==>
        engine.requests == old(engine.requests) + [body] &&
        r == engine.reply(|old(engine.requests)|, body)
    {
      if !HasMessages(body) {
        return Err(BadRequest(MessagesRequired));
      }
      r := engine.PostIngest(body);
    }

    /** The `for (const messages of conversations)` loop: one post per conversation, in
        order, stopping at the first rejected post. */
    method SendConversations(convs: seq<Conversation>) returns (r: Result<seq<IngestItem>, Failure>)
      modifies engine
      ensures var s := SendAll(convs, engine.reply, |old(engine.requests)|);
        r == s.result && engine.requests == old(engine.requests) + Map(convs[..s.posted], Payload)
    {
      ghost var start := |engine.requests|;
      var results: seq<IngestItem> := [];
      var i := 0;
      assert convs[0..] == convs;
      assert convs[..0] == [];
      assert forall rest: seq<IngestItem> :: [] + rest == rest;
      while i < |convs|
        invariant 0 <= i <= |convs|
        invariant engine.requests == old(engine.requests) + Map(convs[..i], Payload)
        invariant SendAll(convs, engine.reply, start) == After(results, i, SendAll(convs[i..], engine.reply, start + i))
      {
        assert Map(convs[..i + 1], Payload) == Map(convs[..i], Payload) + [Payload(convs[i])];
        var resp := engine.PostIngest(Payload(convs[i]));
        SendStep(convs, engine.reply, start, i, results);
        if resp.Err? {
          return Err(resp.error);
        }
        results := results + [ItemOf(resp.value)];
        i := i + 1;
      }
      assert convs[i..] == [];
      assert results + [] == results;
      r := Ok(results);
    }

    /** `POST /rag/ingest-batch`: normalise the upload, then send its conversations. */
    method IngestBatch(file: Option<UploadedFile>, parse: string -> Option<Json>) returns (r: Result<BatchReply, Failure>)
      modifies engine
      ensures Normalize(file, parse).Err? ==>
        r == Err(Normalize(file, parse).error) && engine.requests == old(engine.requests)
      ensures Normalize(file, parse).Ok? ==>
        var convs := Normalize(file, parse).value;
        var s := SendAll(convs, engine.reply, |old(engine.requests)|);
        engine.requests == old(engine.requests) + Map(convs[..s.posted], Payload) &&
        r == (if s.result.Ok? then Ok(BatchReply(|s.result.value|, s.result.value)) else Err(s.result.error))
    {
      var conversations := NormalizeUpload(file, parse);
      if conversations.Err? {
        return Err(conversations.error);
      }
      var results := SendConversations(conversations.value);
      if results.Err? {
        return Err(results.error);
      }
      r := Ok(BatchReply(|results.value|, results.value));
    }
  }
}
