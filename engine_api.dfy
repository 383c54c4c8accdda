/** The rag-engine's FastAPI module (rag-engine/rag_engine/api.py): the CORS origin list read
    from `RAG_CORS_ORIGINS`, and the dimension reported by `/rag/embed`. */
module EngineApi {
  import opened Outcomes
  import opened Seqs
  import opened Text

  /** `[o.strip() for o in raw.split(",") if o.strip()]`: the comma-separated entries,
      stripped, blank ones dropped. */
  function Origins(raw: string): (r: seq<string>)
    ensures forall i :: 0 <= i < |r| ==> r[i] != "" && ',' !in r[i] && Strip(r[i], IsPySpace) == r[i]
  {
    CleanLinesInherits(Split(raw, ','), IsPySpace, ',');
    CleanLinesStripped(Split(raw, ','), IsPySpace);
    CleanLines(Split(raw, ','), IsPySpace)
  }

  /** The entry before the first comma contributes its stripped self, if not blank, ahead of
      the entries after it. */
  lemma OriginsAt(a: string, b: string)
    requires ',' !in a
    ensures Origins(a + "," + b) == CleanLines([a], IsPySpace) + Origins(b)
  {
    SplitAtFirst(a, b, ',');
    CleanLinesAppend([a], Split(b, ','), IsPySpace);
  }

  /** A value without a comma is one entry: its stripped self, or nothing when it is blank. */
  lemma OriginsLast(a: string)
    requires ',' !in a
    ensures Origins(a) == CleanLines([a], IsPySpace)
  {
    SplitWithoutSeparator(a, ',');
  }

  /** The default value `"*"` is the single origin `"*"`. */
  lemma StarIsOneOrigin()
    ensures Origins("*") == ["*"]
  {
    SplitWithoutSeparator("*", ',');
    CleanLinesFixed(["*"], IsPySpace);
  }

  /** `allow_origins`: the entries of the variable's value, or of `"*"` when it is unset,
      with `["*"]` standing in for an empty list. */
  function AllowOrigins(env: Option<string>): (r: seq<string>)
    ensures r != []
    ensures env.None? ==> r == ["*"]
    ensures env.Some? && Origins(env.value) != [] ==> r == Origins(env.value)
    ensures env.Some? && Origins(env.value) == [] ==> r == ["*"]
    ensures forall i :: 0 <= i < |r| ==> r[i] != "" && ',' !in r[i] && Strip(r[i], IsPySpace) == r[i]
  {
    StarIsOneOrigin();
    var origins := Origins(env.GetOr("*"));
    if origins == [] then ["*"] else origins
  }

  /** A list of stripped, non-empty origins without commas, written comma-separated, is read
      back as the same list in the same order. */
  lemma AllowOriginsRoundTrip(origins: seq<string>)
    requires origins != []
    requires forall i :: 0 <= i < |origins| ==>
      origins[i] != "" && ',' !in origins[i] && !IsPySpace(origins[i][0]) && !IsPySpace(origins[i][|origins[i]| - 1])
    ensures AllowOrigins(Some(Join(origins, ","))) == origins
  {
    SplitJoin(origins, ',');
    CleanLinesFixed(origins, IsPySpace);
  }

  /** A value holding only commas and whitespace (the empty string included) falls back to `["*"]`. */
  lemma BlankOriginsAllowAll(env: string)
    requires forall i :: 0 <= i < |env| ==> env[i] == ',' || IsPySpace(env[i])
    ensures AllowOrigins(Some(env)) == ["*"]
  {
    var pieces := Split(env, ',');
    SplitInherits(env, ',');
    var stripped := Map(pieces, (x: string) => Strip(x, IsPySpace));
    forall j | 0 <= j < |pieces| ensures stripped[j] == [] {
      forall k | 0 <= k < |pieces[j]| ensures IsPySpace(pieces[j][k]) {
        var c := pieces[j][k];
        assert c in pieces[j] && c != ',';
        assert c in env;
        var idx :| 0 <= idx < |env| && env[idx] == c;
      }
      StripAllDropped(pieces[j], IsPySpace);
    }
    FilterDropsAll(stripped, (x: string) => x != []);
  }

  /** The body of `/rag/embed`'s answer. Vector components are left abstract. */
  datatype EmbedResponse<V> = EmbedResponse(embeddings: seq<seq<V>>, dimension: Option<int>)

  /** `rag_embed`: the embedder's vectors, returned as they are, and its dimension, or the
      length of the first vector when the embedder does not know it and that vector is
      non-empty. */
  function RagEmbed<V>(vectors: seq<seq<V>>, knownDimension: Option<int>): (r: EmbedResponse<V>)
    ensures r.embeddings == vectors
    ensures knownDimension.Some? ==> r.dimension == knownDimension
    ensures knownDimension.None? && |vectors| > 0 && |vectors[0]| > 0 ==> r.dimension == Some(|vectors[0]|)
    ensures knownDimension.None? && (vectors == [] || vectors[0] == []) ==> r.dimension == None
  {
    var dim := if knownDimension.None? && vectors != [] && |vectors[0]| > 0 then Some(|vectors[0]|) else knownDimension;
    EmbedResponse(vectors, dim)
  }
}
