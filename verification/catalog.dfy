/** The code catalog rows and the embedding step of the index builder. */
module Catalog {
  import opened Results

  /** An embedding vector. */
  type Vector = seq<real>

  /** One row of the ICD-10 code table. */
  datatype CodeRow = CodeRow(icdCode: string, shortDescription: string, longDescription: string)

  /** Stacking the collected vectors into one matrix fails when they differ in
      length (numpy refuses an inhomogeneous shape). */
  datatype EmbeddingError = RaggedEmbeddings

  /** `vs` holds one vector per row, in row order, each the embedding of that
      row's long description. */
  predicate EmbeddingsOf(rows: seq<CodeRow>, embed: string -> Vector, vs: seq<Vector>) {
    && |vs| == |rows|
    && forall i :: 0 <= i < |rows| ==> vs[i] == embed(rows[i].longDescription)
  }

  /** All vectors have the same length, so they form a matrix. */
  predicate Rectangular(vs: seq<Vector>) {
    forall i :: 0 <= i < |vs| ==> |vs[i]| == |vs[0]|
  }

  /** `generate_embeddings`: embeds every row's long description in turn, then
      stacks the vectors into a matrix. The embedding service is the parameter
      `embed`. */
  method GenerateEmbeddings(rows: seq<CodeRow>, embed: string -> Vector)
    returns (r: Result<seq<Vector>, EmbeddingError>)
    ensures r.Ok? ==> EmbeddingsOf(rows, embed, r.value)
    ensures r.Err? <==> (exists i, j :: 0 <= i < j < |rows| &&
                          |embed(rows[i].longDescription)| != |embed(rows[j].longDescription)|)
  {
    var vs := [];
    var i := 0;
    while i < |rows|
      invariant 0 <= i <= |rows|
      invariant |vs| == i
      invariant forall j :: 0 <= j < i ==> vs[j] == embed(rows[j].longDescription)
    {
      vs := vs + [embed(rows[i].longDescription)];
      i := i + 1;
    }
    if Rectangular(vs) {
      r := Ok(vs);
    } else {
      var j :| 0 <= j < |vs| && |vs[j]| != |vs[0]|;
      assert 0 < j;
      r := Err(RaggedEmbeddings);
    }
  }
}
