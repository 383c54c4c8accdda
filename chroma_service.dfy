/** `ChromaService` (server/src/chroma/chroma.service.ts): the include-field filter and
    defaults of `getDocuments`, and the name mapping of `listCollections`. The Chroma client
    is passed in as a function from collection name and request to the client's answer. */
module ChromaService {
  import opened Outcomes
  import opened Seqs
  import opened JsonValues
  import opened ServerErrors

  /** The fields a `get` may ask for. */
  const Allowed := ["documents", "embeddings", "metadatas", "uris", "data"]
  const DefaultGetInclude := ["documents", "metadatas"]
  const DefaultLimit := 20

  /** The arguments of `col.get({limit, include})`. */
  datatype GetRequest = GetRequest(limit: int, includeFields: seq<string>)

  predicate IsAllowed(x: string) {
    x in Allowed
  }

  /** The include list sent to Chroma: the allowed entries of a non-empty `include`, in
      order and with duplicates, or `['documents', 'metadatas']` when it is absent or empty. */
  function GetInclude(includeFields: Option<seq<string>>): (inc: seq<string>)
    ensures includeFields.None? || includeFields.value == [] ==> inc == ["documents", "metadatas"]
    ensures forall i :: 0 <= i < |inc| ==> inc[i] in ["documents", "embeddings", "metadatas", "uris", "data"]
    ensures "distances" !in inc
    ensures includeFields.Some? && includeFields.value != [] ==>
      |inc| <= |includeFields.value| &&
      forall x :: x in inc <==> x in includeFields.value && x in ["documents", "embeddings", "metadatas", "uris", "data"]
  {
    if includeFields.Some? && includeFields.value != [] then Filter(includeFields.value, IsAllowed)
    else DefaultGetInclude
  }

  /** The filter keeps relative order: an include list split in two is filtered piecewise. */
  lemma GetIncludeKeepsOrder(a: seq<string>, b: seq<string>)
    requires a != [] && b != []
    ensures GetInclude(Some(a + b)) == GetInclude(Some(a)) + GetInclude(Some(b))
  {
    FilterAppend(a, b, IsAllowed);
  }

  /** A list of allowed fields goes through unchanged, duplicates included. */
  lemma GetIncludeKeepsAllowed(xs: seq<string>)
    requires xs != [] && forall i :: 0 <= i < |xs| ==> xs[i] in Allowed
    ensures GetInclude(Some(xs)) == xs
  {
    FilterKeepsAll(xs, IsAllowed);
  }

  /** A non-empty list with no allowed field becomes `[]`, not the default. */
  lemma GetIncludeNoneAllowed(xs: seq<string>)
    requires xs != [] && forall i :: 0 <= i < |xs| ==> xs[i] !in Allowed
    ensures GetInclude(Some(xs)) == []
  {
    FilterDropsAll(xs, IsAllowed);
  }

  /** The `get` request built from the optional `limit` (default 20) and `include`. */
  function GetRequestFor(limit: Option<int>, includeFields: Option<seq<string>>): (q: GetRequest)
    ensures q.limit == (if limit.Some? then limit.value else 20)
    ensures q.includeFields == GetInclude(includeFields)
  {
    GetRequest(limit.GetOr(DefaultLimit), GetInclude(includeFields))
  }

  /** `getDocuments(name, limit, include)`: one `get` on the named collection. */
  function GetDocuments(name: string, limit: Option<int>, includeFields: Option<seq<string>>,
                        get: (string, GetRequest) -> Result<Json, Failure>): (r: Result<Json, Failure>)
    ensures r == get(name, GetRequest(if limit.Some? then limit.value else 20, GetInclude(includeFields)))
  {
    get(name, GetRequestFor(limit, includeFields))
  }

  /** `c.name ?? c` for an entry that is not `null`. */
  function NameOrSelf(c: Json): (r: Json)
    ensures HasName(c) ==> r == c.fields["name"] && r != JNull
    ensures !HasName(c) ==> r == c
  {
    if HasName(c) then c.fields["name"] else c
  }

  /** The entry has a `name` that is neither `null` nor missing. */
  predicate HasName(c: Json) {
    c.JObject? && "name" in c.fields && c.fields["name"] != JNull
  }

  /** `listCollections`: each entry's name, or the entry itself; a `null` entry throws. */
  function ListCollections(cols: seq<Json>): (r: Result<seq<Json>, Failure>)
    ensures r.Ok? <==> JNull !in cols
    ensures r.Err? ==> r.error == TypeError
    ensures r.Ok? ==> |r.value| == |cols|
    ensures r.Ok? ==> forall i :: 0 <= i < |cols| ==>
      r.value[i] == (if cols[i].JObject? && "name" in cols[i].fields && cols[i].fields["name"] != JNull
                     then cols[i].fields["name"] else cols[i])
  {
    if cols == [] then Ok([])
    else if cols[0] == JNull then Err(TypeError)
    else
      match ListCollections(cols[1..])
      case Err(e) => Err(e)
      case Ok(rest) => Ok([NameOrSelf(cols[0])] + rest)
  }

  /** A client that already answers with names gets them back as they are. */
  lemma {:induction false} ListCollectionsOfNames(cols: seq<Json>)
    requires forall i :: 0 <= i < |cols| ==> cols[i].JString?
    ensures ListCollections(cols) == Ok(cols)
  {
    if cols != [] {
      ListCollectionsOfNames(cols[1..]);
      assert [cols[0]] + cols[1..] == cols;
    }
  }
}
