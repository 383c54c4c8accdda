# rag-chatbot request shaping, modelled in Dafny

rag-chatbot is a retrieval-augmented chat system in two parts:

- a NestJS server, which accepts conversation uploads, answers questions from a Chroma
  vector store, and browses collections;
- a Python rag-engine, which preprocesses conversations, embeds them and stores them.

This project models the deterministic logic around those services, which are themselves
replaced by functions passed in as parameters:

- **Batch ingestion** (`RagIngest`). This covers `RagController.ingest` and
  `ingestBatch`:
  - the file-required check;
  - the case-insensitive dispatch on `.txt`, `.jsonl` and `.json`;
  - the three parsers;
  - the sequential send loop that builds `{count, items}`.

  The engine's HTTP endpoint is a class `EngineClient`. It logs every body posted, and
  its answers come from a reply function indexed by the request's position.
- **Answer composition** (`ChatAnswer`). This covers `ChatService.answer`:
  - defaults for `top_k` and `include`;
  - the fallback to no query embeddings;
  - the context, made of the first three string documents;
  - the fixed answer prefix or "not found" sentence;
  - the zip of Chroma's parallel rows into hits, with `null` filling the gaps.
- **Chroma field handling** (`ChromaService`, `ChromaTypes`). This covers:
  - the `getDocuments` include filter with its defaults;
  - the `listCollections` name mapping;
  - `toIncludeEnums`.
- **Preprocessing** (`Preprocessing`). `Preprocessor.preprocess` joins the messages and
  chooses between the remote rewrite and the local heuristic. `_fallback_heuristic` is
  modelled as a method with its collapse loop.
- **Engine entry points** (`EngineApi`, `EngineCli`). This covers:
  - the CORS origin list and the embedding dimension in `api.py`;
  - the message-file reader and `ingest` subcommand in `cli.py`.

Shared modules:

- `Outcomes` holds `Option`/`Result`.
- `Seqs` holds `Filter`/`Map`/`Take`.
- `Text` holds the JavaScript and Python string primitives the code relies on: `trim`,
  `strip`, `split`, `split(/\r?\n/)`, `splitlines`, `join`, `toLowerCase` and `endsWith`.
- `JsonValues` holds parsed JSON values, as RFC 8259 defines them. `JSON.parse` and
  `json.loads` are parameters of type `string -> Option<Json>`.
- `ServerErrors` holds the exceptions the server's handlers end in.

Behaviour of the code worth noting:

- A `.jsonl` line of any other shape aborts the whole upload with "invalid jsonl line".
  Nothing is skipped.
- A `null` line in a `.jsonl` file, and a `null` entry in `listCollections`, end in a
  `TypeError`. This is reading a property of `null`.
- In `ChatService.answer`, a failed embedding call propagates as an error. Only a reply
  whose `embeddings` is not an array degrades to an empty query.

## Model

| member | source | states |
|---|---|---|
| RagIngest.RagController.Ingest | server/src/rag/rag.controller.ts:27-33 | without a non-empty `messages` array the request fails with "messages[] is required" and nothing is posted; otherwise the body is posted unchanged, exactly once, and the engine's answer is returned |
| RagIngest.EngineClient.PostIngest | server/src/rag/rag.controller.ts:85-90 | one post appends its body to the request log and returns the engine's answer to that request |
| RagIngest.HasMessages | server/src/rag/rag.controller.ts:28 | the check passes only for an object whose `messages` is a non-empty array; any other value, and `messages: []`, fail it |
| Text.ToLowerAscii | server/src/rag/rag.controller.ts:44 | lower-casing keeps the length; each ASCII capital becomes the letter 32 code points later and every other character stays as it is |
| Text.LowerEndsWith | server/src/rag/rag.controller.ts:44-69 | a lower-cased name ends in a lower-case extension exactly when its last characters are that extension's, each in either ASCII case |
| RagIngest.FormatOf | server/src/rag/rag.controller.ts:44-80 | the text branch is taken exactly when the lower-cased name ends in `.txt`; JSON Lines exactly when it ends in `.jsonl` but not `.txt`; "unsupported" exactly when it ends in none of `.txt`, `.jsonl`, `.json` |
| RagIngest.TxtByExtension | server/src/rag/rag.controller.ts:44-49 | a name ending in `.txt` in any letter case takes the text branch |
| RagIngest.JsonlByExtension | server/src/rag/rag.controller.ts:44-56 | a name ending in `.jsonl` in any letter case takes the JSON-Lines branch, although `.txt` is tried first |
| RagIngest.JsonByExtension | server/src/rag/rag.controller.ts:44-69 | a name ending in `.json` in any letter case takes the JSON branch and not the `.jsonl` one |
| Text.SplitCRLF | server/src/rag/rag.controller.ts:51 | splitting on `/\r?\n/` gives as many pieces as splitting on "\n" |
| Text.SplitCRLFAt | server/src/rag/rag.controller.ts:51 | the first piece runs to the first "\n", without one "\r" just before it; the rest is split on its own |
| Text.SplitCRLFAtCRLF | server/src/rag/rag.controller.ts:51 | "\r\n" ends a piece just as "\n" does, leaving no "\r" in it |
| Text.SplitCRLFLast | server/src/rag/rag.controller.ts:51 | text without "\n" is one piece, kept as it is (a trailing "\r" included) |
| Text.SplitCRLFJoin | server/src/rag/rag.controller.ts:51 | lines without "\n" and not ending in "\r", joined by "\n", split back into the same lines |
| Text.CleanLinesOne | server/src/rag/rag.controller.ts:52-53 | a single line is kept as its trimmed self unless trimming leaves it empty, when it is dropped |
| Text.CleanLinesAppend | server/src/rag/rag.controller.ts:52-53 | trimming and dropping blank lines distributes over concatenation, so order is kept |
| Text.CleanSplitCRLFAt | server/src/rag/rag.controller.ts:50-53 | the lines of a text are those of its first "\n"-terminated line followed by those of the rest |
| RagIngest.TrimmedLines | server/src/rag/rag.controller.ts:50-53 | every line kept is non-empty and already trimmed |
| RagIngest.TrimmedLinesAt | server/src/rag/rag.controller.ts:50-53 | the first line up to "\n" is trimmed, or dropped when blank, ahead of the lines of the rest |
| RagIngest.TrimmedLinesAtCRLF | server/src/rag/rag.controller.ts:50-53 | a line ended by "\r\n" gives the same as one ended by "\n", without its "\r" |
| RagIngest.TrimmedLinesLast | server/src/rag/rag.controller.ts:50-53 | the text after the last "\n" is the last line, trimmed, or nothing when blank |
| RagIngest.TxtConversations | server/src/rag/rag.controller.ts:49-55 | fails with "empty txt" exactly when no line is non-blank; otherwise gives one conversation whose message `i` is the `i`-th trimmed non-blank line |
| RagIngest.TxtRoundTrip | server/src/rag/rag.controller.ts:50-55 | trimmed non-blank lines written one per line come back as one conversation of the same lines, in order |
| RagIngest.LineConversation | server/src/rag/rag.controller.ts:62-67 | an array line is its own conversation; `null` throws a TypeError; a `messages` array is used next; string `q` and `a` give "Q: "/"A: " messages; every other shape, and only those, fails with "invalid jsonl line" |
| RagIngest.LineResult | server/src/rag/rag.controller.ts:62-67 | a line `JSON.parse` rejects is a SyntaxError; a parsed line gives that value's conversation; the only errors are SyntaxError, TypeError and "invalid jsonl line" |
| RagIngest.JsonlConversations | server/src/rag/rag.controller.ts:57-68 | a successful `.jsonl` parse has one conversation per non-blank line; a failure is a SyntaxError, a TypeError or "invalid jsonl line" and nothing else |
| RagIngest.JsonlPerLine | server/src/rag/rag.controller.ts:61-68 | the `.jsonl` parse succeeds exactly when every line does, and conversation `i` is line `i`'s |
| RagIngest.JsonlFirstFailure | server/src/rag/rag.controller.ts:61-68 | a failing `.jsonl` parse reports the error of its first bad line; every line before it was good, so nothing is skipped |
| RagIngest.ParseJsonl | server/src/rag/rag.controller.ts:57-68 | the `for` loop pushing onto `conversations` computes the `.jsonl` parse |
| RagIngest.BlankJsonlIsEmpty | server/src/rag/rag.controller.ts:56-68 | a `.jsonl` file with no non-blank line gives zero conversations and no error |
| RagIngest.JsonConversations | server/src/rag/rag.controller.ts:69-75 | unparsable text is a SyntaxError; an all-string array is one conversation; otherwise an all-array array gives one conversation per inner array; "invalid json" exactly for everything else |
| RagIngest.JsonEmptyArray | server/src/rag/rag.controller.ts:71-72 | `[]` passes the all-strings test and gives one empty conversation |
| RagIngest.NormalizeUpload | server/src/rag/rag.controller.ts:41-80 | the statement-by-statement check and dispatch compute `Normalize` |
| RagIngest.Normalize | server/src/rag/rag.controller.ts:41-80 | "file is required" exactly when the file, its buffer or its name is missing or the name is empty; "unsupported file type" exactly when a present file has an unsupported extension; otherwise the `.txt`, `.jsonl` or `.json` parse of the text |
| RagIngest.ParseAs | server/src/rag/rag.controller.ts:48-80 | a format dispatch never reports a missing file, and reports "unsupported file type" exactly for the unsupported format |
| RagIngest.SendAll | server/src/rag/rag.controller.ts:83-92 | at least one post is made when there is a conversation, never more posts than conversations; on success every conversation was posted and there is one item each |
| RagIngest.PayloadShape | server/src/rag/rag.controller.ts:86-89 | the body posted for a conversation has exactly the keys `messages`, holding the conversation, and `metadata`, holding source "upload"; it would pass the single-ingest check exactly when the conversation is non-empty |
| RagIngest.SendAllItems | server/src/rag/rag.controller.ts:84-91 | on success item `i` is the `{id, vector_dim}` of the reply to the `i`-th conversation, posted with metadata source "upload" |
| RagIngest.SendAllStopsAtFailure | server/src/rag/rag.controller.ts:84-92 | on failure every earlier post succeeded and the error is that of the last post made |
| RagIngest.SendStep | server/src/rag/rag.controller.ts:84-91 | the `i`-th post either ends the sending with its error after `i + 1` posts, or adds its `{id, vector_dim}` item and continues with the next conversation |
| RagIngest.RagController.SendConversations | server/src/rag/rag.controller.ts:83-92 | the send loop posts the conversations in order, one body each, up to and including the first rejected one, and returns the result of sending them all |
| RagIngest.RagController.IngestBatch | server/src/rag/rag.controller.ts:41-93 | an upload error is returned with nothing posted; otherwise the posts are those of the send loop, and the reply's `count` is the number of items |
| ChatAnswer.QueryEmbeddings | server/src/chat/chat.service.ts:44-48 | the query embeddings are the reply's `embeddings` when that is an array, otherwise empty |
| ChatAnswer.QueryFor | server/src/chat/chat.service.ts:28-56 | the query uses the collection, `top_k` or 5, and `include` unfiltered or `['documents','metadatas','distances']` when absent |
| ChatAnswer.FirstRow | server/src/chat/chat.service.ts:59-62 | a row is present exactly when the field is an array whose first element is an array |
| ChatAnswer.StringDocs | server/src/chat/chat.service.ts:63 | keeping the string documents never lengthens the row; which documents survive is stated by StringDocsMembers and their order by StringDocsAppend |
| ChatAnswer.StringDocsMembers | server/src/chat/chat.service.ts:63 | a text is among the kept documents exactly when it is a string entry of the row |
| ChatAnswer.StringDocsAppend | server/src/chat/chat.service.ts:63 | the filter keeps rank order: it distributes over concatenation |
| ChatAnswer.ContextIgnoresLaterDocs | server/src/chat/chat.service.ts:63-64 | once three string documents are present, later entries do not change the context |
| ChatAnswer.NullDoesNotTakeASlot | server/src/chat/chat.service.ts:63-64 | a `null` among the first three entries lets the fourth entry into the context |
| ChatAnswer.Context | server/src/chat/chat.service.ts:63-64 | the context is empty exactly when there is no string document or only one empty one; otherwise it starts with the first string document |
| Text.JoinEmpty | server/src/chat/chat.service.ts:64 | with a non-empty separator a join is empty only for no pieces or one empty piece, and starts with the first piece |
| ChatAnswer.ComposeAnswer | server/src/chat/chat.service.ts:65-67 | the answer is the "not found" sentence exactly when the context is empty; otherwise it is the fixed prefix followed by the context |
| ChatAnswer.TwoDocumentsAnswer | server/src/chat/chat.service.ts:63-67 | with two string documents the answer is the prefix and both, joined by the separator |
| ChatAnswer.TwoDocumentsContext | server/src/chat/chat.service.ts:63-64 | two string documents make the context the pair joined by "\n---\n" |
| ChatAnswer.NonEmptyAnswer | server/src/chat/chat.service.ts:65-66 | a non-empty context is answered with the fixed prefix followed by the context |
| ChatAnswer.Hits | server/src/chat/chat.service.ts:71-90 | one hit per id of the first query (none when `ids` is missing); hit `i` has id `i` and, per field, entry `i` of that row or `null` |
| ChatAnswer.EntryOrNull | server/src/chat/chat.service.ts:76-89 | entry `i` of a present row when it exists; `null` for a missing row or an index past the row's end |
| ChatAnswer.ShortRowIsNull | server/src/chat/chat.service.ts:76-79 | a present `documents` row shorter than the ids gives `null` documents past its end |
| ChatAnswer.HitsUnzip | server/src/chat/chat.service.ts:71-90 | with four rows as long as the ids, projecting the hits gives back ids, documents, metadatas and distances, in order, `null` entries included |
| ChatAnswer.MissingRowIsNull | server/src/chat/chat.service.ts:76-89 | a missing or malformed row never fails the zip: that field is `null` in every hit |
| ChatAnswer.Answer | server/src/chat/chat.service.ts:27-91 | succeeds exactly when both the embedding and the query calls succeed, so a rejected call propagates; on success the hits and the answer are built from the query's reply |
| ChatAnswer.AnswerReturnsAllHits | server/src/chat/chat.service.ts:69-90 | `contexts` holds one hit per id, in id order, not only the three used in the context |
| ChatAnswer.NoDocumentsNotFound | server/src/chat/chat.service.ts:59-67 | with no string document the answer is the "not found" sentence |
| ChromaService.GetInclude | server/src/chroma/chroma.service.ts:33-37 | an absent or empty `include` becomes `['documents','metadatas']`; otherwise exactly the allowed values given are kept; the result never contains `distances` |
| ChromaService.GetIncludeKeepsOrder | server/src/chroma/chroma.service.ts:36 | the filter keeps input order: it distributes over concatenation |
| ChromaService.GetIncludeKeepsAllowed | server/src/chroma/chroma.service.ts:33-36 | a list of allowed values goes through unchanged, duplicates included |
| ChromaService.GetIncludeNoneAllowed | server/src/chroma/chroma.service.ts:34-36 | a non-empty list with no allowed value becomes `[]`, not the default |
| ChromaService.GetRequestFor | server/src/chroma/chroma.service.ts:27-38 | `limit` defaults to 20, and the include list is the filtered one |
| ChromaService.GetDocuments | server/src/chroma/chroma.service.ts:27-40 | one `get` is made on the named collection with that limit and include list, and its answer is returned |
| ChromaService.ListCollections | server/src/chroma/chroma.service.ts:18-21 | succeeds exactly when no entry is `null`, keeping length and order; entry `i` becomes its non-null `name` or else itself; a `null` entry is a TypeError |
| ChromaService.NameOrSelf | server/src/chroma/chroma.service.ts:20 | an entry with a non-null `name` gives that name; any other entry gives itself |
| ChromaService.ListCollectionsOfNames | server/src/chroma/chroma.service.ts:20 | a client answering with plain names gets them back unchanged |
| ChromaTypes.EnumOf | server/src/chroma/types.ts:22-27 | each key maps to the enum member with the same wire text |
| ChromaTypes.KeyOf | server/src/chroma/types.ts:22-27 | the inverse of the lookup record: mapping its result gives the member back |
| ChromaTypes.ToIncludeEnums | server/src/chroma/types.ts:20-29 | gives `undefined` exactly for absent or empty keys; otherwise a non-empty list of the same length whose entry `i` has key `i`'s text |
| ChromaTypes.ToIncludeEnumsInverse | server/src/chroma/types.ts:22-28 | the keys are recovered from the enum list, so nothing is lost or reordered |
| ChromaTypes.ToIncludeEnumsInjective | server/src/chroma/types.ts:22-28 | distinct key lists give distinct enum lists |
| Preprocessing.JoinMessagesLines | rag-engine/rag_engine/preprocess.py:43 | messages without line breaks come out of the joined text one per line: stripped, blank ones dropped, order kept |
| Preprocessing.NoKeyNeverCallsRemote | rag-engine/rag_engine/preprocess.py:43-45 | without an API key the result is the heuristic of the joined messages, and no remote service affects it |
| Preprocessing.RemoteFailureFallsBack | rag-engine/rag_engine/preprocess.py:47-50 | a failing remote call gives the same text as having no key |
| Preprocessing.JoinMessages | rag-engine/rag_engine/preprocess.py:43 | the joined text is empty exactly when every message is blank, and otherwise starts with the first non-blank message, stripped |
| Preprocessing.Preprocess | rag-engine/rag_engine/preprocess.py:37-50 | without an API key, the heuristic of the joined messages; with one, the stripped remote reply, or the heuristic when the remote call fails |
| Preprocessing.ReplaceChar | rag-engine/rag_engine/preprocess.py:54 | replacing "\r" by "\n" keeps the length, puts "\n" exactly where "\r" stood and leaves every other character in place |
| Preprocessing.HalveDoubleSpaces | rag-engine/rag_engine/preprocess.py:56 | one replace pass keeps the first character, brings in no new character and shortens any text that contains two spaces in a row |
| Preprocessing.HalveRun | rag-engine/rag_engine/preprocess.py:56 | one replace pass turns a run of `n` spaces into a run of `(n + 1) / 2` spaces |
| Preprocessing.SquashSpaces | rag-engine/rag_engine/preprocess.py:55-56 | the reference result of the collapse loop keeps the first character, and has a space exactly when the input has one |
| Preprocessing.SquashRun | rag-engine/rag_engine/preprocess.py:55-56 | squashing turns any run of spaces into exactly one space |
| Preprocessing.SquashNoDouble | rag-engine/rag_engine/preprocess.py:55 | a text without two spaces in a row is its own squash |
| Preprocessing.SquashHalve | rag-engine/rag_engine/preprocess.py:55-56 | one replace pass does not change the squash, so the loop keeps it invariant |
| Preprocessing.Collapse | rag-engine/rag_engine/preprocess.py:55-56 | the collapse loop ends in the squash of its input (every run of spaces becomes one space, everything else kept in order), with no two spaces in a row and no new character; a text without two spaces in a row is left unchanged |
| Preprocessing.HalveKeepsNonSpaces | rag-engine/rag_engine/preprocess.py:56 | one replace pass keeps every character other than a space, in order |
| Preprocessing.CollapseKeepsNonSpaces | rag-engine/rag_engine/preprocess.py:55-56 | the collapse loop keeps every character other than a space, in order |
| Preprocessing.FallbackHeuristic | rag-engine/rag_engine/preprocess.py:52-59 | the `while` loop terminates because each pass shortens the text, and the method computes the heuristic |
| Preprocessing.HeuristicLines | rag-engine/rag_engine/preprocess.py:54-58 | every line the heuristic keeps is non-empty, has no "\r" and no two spaces in a row, and does not start or end with a space, dash, bullet or tab |
| Preprocessing.CleanedLinesGood | rag-engine/rag_engine/preprocess.py:57-58 | cleaning the "\n"-pieces of a text without "\r" or two spaces in a row gives only such good lines |
| Preprocessing.Heuristic | rag-engine/rag_engine/preprocess.py:52-59 | the heuristic output contains no "\r" and no two spaces in a row, and is empty exactly when no line survives the cleaning |
| Preprocessing.HeuristicLinesBack | rag-engine/rag_engine/preprocess.py:57-59 | the output is empty exactly when no line survives; otherwise its lines are exactly the surviving lines, in order, each good |
| Preprocessing.HeuristicFixpoint | rag-engine/rag_engine/preprocess.py:52-59 | good lines joined by "\n", with no whitespace at either end of the whole, are returned unchanged by the heuristic |
| EngineApi.Origins | rag-engine/rag_engine/api.py:43 | every parsed entry is non-empty, stripped and holds no comma |
| EngineApi.OriginsAt | rag-engine/rag_engine/api.py:43 | the entry before the first comma is stripped, or dropped when blank, ahead of the entries after it |
| EngineApi.OriginsLast | rag-engine/rag_engine/api.py:43 | a value without a comma is one entry, stripped, or none when blank |
| EngineApi.AllowOrigins | rag-engine/rag_engine/api.py:42-43 | the origin list is never empty; it is `["*"]` when the variable is unset or has no non-blank entry, and otherwise the variable's parsed entries; every entry is non-empty, stripped and holds no comma |
| EngineApi.AllowOriginsRoundTrip | rag-engine/rag_engine/api.py:43 | stripped non-empty origins written comma-separated are read back as the same list, in order |
| EngineApi.BlankOriginsAllowAll | rag-engine/rag_engine/api.py:43 | a value of only commas and whitespace falls back to `["*"]` |
| EngineApi.RagEmbed | rag-engine/rag_engine/api.py:62-68 | the vectors are returned unchanged; the dimension is the embedder's when known, else the first vector's length when that vector is non-empty, else `None` |
| Text.SplitLines | rag-engine/rag_engine/cli.py:32 | no piece of `splitlines` holds a line boundary |
| Text.SplitLinesAt | rag-engine/rag_engine/cli.py:32 | the first line ends at the first line boundary, which is dropped, and the rest is split on its own |
| Text.SplitLinesAtCRLF | rag-engine/rag_engine/cli.py:32 | "\r\n" is one line boundary, not two |
| Text.SplitLinesLast | rag-engine/rag_engine/cli.py:32 | text without a boundary is one line, or none when empty |
| Text.SplitLinesJoin | rag-engine/rag_engine/cli.py:32 | lines without boundaries joined by "\n" split back into the same lines |
| Text.CleanLines | rag-engine/rag_engine/cli.py:32 | every kept line is non-empty and has no strippable character at either end |
| EngineCli.FileLines | rag-engine/rag_engine/cli.py:31-32 | the fallback lines are non-empty, stripped and hold no line boundary |
| EngineCli.FileLinesAt | rag-engine/rag_engine/cli.py:32 | a line ended by one boundary character contributes its stripped self, if not blank, ahead of the rest of the file's lines |
| EngineCli.FileLinesAtCRLF | rag-engine/rag_engine/cli.py:32 | a line ended by "\r\n" contributes the same, with no empty line between |
| EngineCli.FileLinesLast | rag-engine/rag_engine/cli.py:32 | the last line without a boundary is kept stripped, or dropped when blank |
| EngineCli.ReadMessagesFromFile | rag-engine/rag_engine/cli.py:17-32 | a JSON list gives one `str(x)` per element, same length and order; anything else gives the file's lines |
| EngineCli.PyStr | rag-engine/rag_engine/cli.py:28 | `str(x)`: a string is itself; `None`, `True`, `False` print by name; an integer prints its decimal digits, with "-" when negative, which read back as its value |
| EngineCli.NatToDecimal | rag-engine/rag_engine/cli.py:28 | the decimal form of a number is digits only, with a leading "0" only for zero itself |
| EngineCli.NatToDecimalValue | rag-engine/rag_engine/cli.py:28 | reading the decimal digits back gives the number |
| EngineCli.JsonListOfStrings | rag-engine/rag_engine/cli.py:25-28 | a JSON list of strings is taken as it is, empty strings included |
| EngineCli.LinesRoundTrip | rag-engine/rag_engine/cli.py:31-32 | stripped non-blank lines that are not a JSON list are read back as the same messages |
| EngineCli.SourceTag | rag-engine/rag_engine/cli.py:49 | the metadata source is `--source` when given and non-empty, otherwise "cli" |
| EngineCli.FileMessages | rag-engine/rag_engine/cli.py:41-42 | no `--from-file` option, or an empty one, contributes no message; otherwise the messages read from that file |
| EngineCli.CmdIngest | rag-engine/rag_engine/cli.py:35-49 | with no message from the file or `--msg` it exits with status 1 and does not ingest; otherwise it ingests the file's messages followed by the `--msg` ones, with the source tag |

## Left out

- HTTP transport. This includes axios/httpx, the 60-second timeout and the engine URL built
  from environment variables. The engine, Chroma and remote chat-completion calls are
  parameters: a reply function, or a class `EngineClient` holding one.
- `Preprocessor._call_openrouter`. Its request, headers and reply parsing are I/O. Only the
  call's outcome, the stripped content or an exception, is modelled.
- The JSON grammar. `JSON.parse` and `json.loads` are parameters.
- Floating-point JSON numbers. `Json` numbers are integers, and embeddings and distances are
  opaque values.
- EngineCli.PyStr: the `str` of a nested list or dict goes through a `repr` function passed
  in, and is not modelled character by character.
- Text.ToLowerAscii: only ASCII letters are lower-cased. `toLowerCase` also maps non-ASCII
  letters, which cannot change whether a name ends in `.txt`, `.jsonl` or `.json`.
- UTF-8 decoding of the uploaded buffer, and reading the CLI's file. The text is a parameter,
  and file-open errors are not modelled.
- Printing, and `sys.exit` beyond the status code recorded in `CliOutcome`.
- `Promise`/`async` sequencing. The send loop is modelled as a plain sequential loop.
- The NestJS modules, routing controllers, `main.ts` and the client application: they only
  route or render.
- The rag-engine's pipeline, embedder and vector store, `RagSettings`, and the
  `query`/`health` handlers. They orchestrate foreign libraries.
