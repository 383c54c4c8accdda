/** `toIncludeEnums` (server/src/chroma/types.ts): include keys mapped to the Chroma
    client's `IncludeEnum` values. */
module ChromaTypes {
  import opened Outcomes
  import opened Seqs

  /** The string-literal type `IncludeKey`. */
  datatype IncludeKey = DocumentsKey | EmbeddingsKey | MetadatasKey | DistancesKey

  /** The Chroma client's `IncludeEnum` members used here. */
  datatype IncludeEnum = Documents | Embeddings | Metadatas | Distances

  /** The literal a key is written as. */
  function KeyText(k: IncludeKey): string {
    match k
    case DocumentsKey => "documents"
    case EmbeddingsKey => "embeddings"
    case MetadatasKey => "metadatas"
    case DistancesKey => "distances"
  }

  /** The wire value of an enum member. */
  function EnumText(e: IncludeEnum): string {
    match e
    case Documents => "documents"
    case Embeddings => "embeddings"
    case Metadatas => "metadatas"
    case Distances => "distances"
  }

  /** The lookup record `map` of `toIncludeEnums`. */
  function EnumOf(k: IncludeKey): (e: IncludeEnum)
    ensures EnumText(e) == KeyText(k)
  {
    match k
    case DocumentsKey => Documents
    case EmbeddingsKey => Embeddings
    case MetadatasKey => Metadatas
    case DistancesKey => Distances
  }

  /** The key an enum member comes from: the inverse of `EnumOf`. */
  function KeyOf(e: IncludeEnum): (k: IncludeKey)
    ensures EnumOf(k) == e
  {
    match e
    case Documents => DocumentsKey
    case Embeddings => EmbeddingsKey
    case Metadatas => MetadatasKey
    case Distances => DistancesKey
  }

  /** `undefined` for absent or empty keys, otherwise each key's enum value, in order. */
  function ToIncludeEnums(keys: Option<seq<IncludeKey>>): (r: Option<seq<IncludeEnum>>)
    ensures r.None? <==> keys.None? || keys.value == []
    ensures r.Some? ==> r.value != [] && |r.value| == |keys.value|
    ensures r.Some? ==> forall i :: 0 <= i < |r.value| ==> EnumText(r.value[i]) == KeyText(keys.value[i])
  {
    if keys.None? || keys.value == [] then None
    else Some(Map(keys.value, EnumOf))
  }

  /** The mapping loses nothing: the keys are recovered from the enum values. */
  lemma ToIncludeEnumsInverse(keys: seq<IncludeKey>)
    requires keys != []
    ensures Map(ToIncludeEnums(Some(keys)).value, KeyOf) == keys
  {
    var r := ToIncludeEnums(Some(keys)).value;
    forall i | 0 <= i < |keys| ensures KeyOf(r[i]) == keys[i] {
      assert EnumText(r[i]) == KeyText(keys[i]);
    }
  }

  /** Distinct key lists give distinct enum lists. */
  lemma ToIncludeEnumsInjective(a: seq<IncludeKey>, b: seq<IncludeKey>)
    requires a != [] && b != []
    requires ToIncludeEnums(Some(a)) == ToIncludeEnums(Some(b))
    ensures a == b
  {
    ToIncludeEnumsInverse(a);
    ToIncludeEnumsInverse(b);
  }
}
