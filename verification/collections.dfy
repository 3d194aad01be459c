/** `build_chroma_collections`: one document collection per distinct cluster
    label, holding the rows that carry that label. Persisting the collections
    is not modelled; the result lists, in build order, each collection's name,
    id and documents as they would be handed to the vector store, together
    with the embedding rows the script selects alongside them (which it
    computes but does not hand over). */
module Collections {
  import opened Results
  import opened Decimal
  import opened Labels
  import opened Catalog

  /** A vector-store document: the long description is the searchable text,
      the rest is metadata copied from the row plus the cluster id. */
  datatype Document = Document(pageContent: string, icdCode: string, shortDescription: string, clusterId: int)

  /** One per-cluster collection: its name, the `cluster_id` metadata, the
      documents, and the masked embedding rows computed alongside them. */
  datatype Collection = Collection(name: string, clusterId: int, documents: seq<Document>, vectors: seq<Vector>)

  /** Boolean-mask selection fails when the mask is not as long as what it
      selects from: first the row table, then the embedding matrix. */
  datatype BuildError = RowMaskMismatch | EmbeddingMaskMismatch

  const CollectionPrefix: string := "g_codes_cluster_"

  /** The collection name for a cluster id. */
  function CollectionName(id: int): string {
    CollectionPrefix + IntToString(id)
  }

  /** Recovers the cluster id from a collection name. */
  function ClusterIdOfName(name: string): Option<int> {
    if |name| >= |CollectionPrefix| && name[..|CollectionPrefix|] == CollectionPrefix
    then ParseInt(name[|CollectionPrefix|..])
    else None
  }

  /** A collection name gives its cluster id back. */
  lemma CollectionNameRoundTrip(id: int)
    ensures ClusterIdOfName(CollectionName(id)) == Some(id)
  {
    var name := CollectionName(id);
    assert name[..|CollectionPrefix|] == CollectionPrefix;
    assert name[|CollectionPrefix|..] == IntToString(id);
    ParseIntToString(id);
  }

  /** Different clusters never share a collection name. */
  lemma CollectionNameInjective(a: int, b: int)
    requires CollectionName(a) == CollectionName(b)
    ensures a == b
  {
    CollectionNameRoundTrip(a);
    CollectionNameRoundTrip(b);
  }

  function MakeDocument(row: CodeRow, id: int): Document {
    Document(row.longDescription, row.icdCode, row.shortDescription, id)
  }

  /** The collection for one cluster id: the rows and embedding rows the mask
      `labels == id` selects. */
  function BuildCollection(rows: seq<CodeRow>, vectors: seq<Vector>, labels: seq<int>, id: int): Collection
    requires |rows| == |labels| && |vectors| == |labels|
  {
    var selected := Select(rows, labels, id);
    Collection(
      CollectionName(id),
      id,
      seq(|selected|, j requires 0 <= j < |selected| => MakeDocument(selected[j], id)),
      Select(vectors, labels, id))
  }

  /** The collections for the given ids, in the given order. */
  function BuildGroups(rows: seq<CodeRow>, vectors: seq<Vector>, labels: seq<int>, ids: seq<int>): (cs: seq<Collection>)
    requires |rows| == |labels| && |vectors| == |labels|
  {
    seq(|ids|, k requires 0 <= k < |ids| => BuildCollection(rows, vectors, labels, ids[k]))
  }

  /** `build_chroma_collections`. With no labels the loop body never runs, so
      nothing is checked; otherwise the first mask application fails on a
      length mismatch before any collection is built, the row table before the
      embedding matrix. A successful build has at most one collection per
      label. */
  function BuildCollections(rows: seq<CodeRow>, vectors: seq<Vector>, labels: seq<int>): (r: Result<seq<Collection>, BuildError>)
    ensures r.Err? <==> |labels| > 0 && (|rows| != |labels| || |vectors| != |labels|)
    ensures r == Err(RowMaskMismatch) <==> |labels| > 0 && |rows| != |labels|
    ensures r.Ok? ==> |r.value| <= |labels|
  {
    if |labels| == 0 then Ok([])
    else if |rows| != |labels| then Err(RowMaskMismatch)
    else if |vectors| != |labels| then Err(EmbeddingMaskMismatch)
    else
      var u := UniqueSorted(labels);
      Ok(BuildGroups(rows, vectors, labels, u))
  }

  /** The cluster ids of the collections, in order. */
  function ClusterIds(cs: seq<Collection>): seq<int> {
    seq(|cs|, k requires 0 <= k < |cs| => cs[k].clusterId)
  }

  function SumSizes(cs: seq<Collection>): nat {
    if cs == [] then 0 else |cs[0].documents| + SumSizes(cs[1..])
  }

  /** `np.unique(labels, return_counts=True)`: each distinct label, ascending,
      with the number of rows carrying it. */
  function Distribution(labels: seq<int>): (d: seq<(int, nat)>)
    ensures forall k1, k2 :: 0 <= k1 < k2 < |d| ==> d[k1].0 < d[k2].0
    ensures forall k :: 0 <= k < |d| ==> d[k].0 in labels && d[k].1 == multiset(labels)[d[k].0] > 0
    ensures forall y :: y in labels ==> exists k :: 0 <= k < |d| && d[k].0 == y
  {
    var u := UniqueSorted(labels);
    var d := seq(|u|, k requires 0 <= k < |u| => (u[k], multiset(labels)[u[k]]));
    forall k | 0 <= k < |u|
      ensures u[k] in labels && multiset(labels)[u[k]] > 0
    {
      assert u[k] in u;
    }
    forall y | y in labels
      ensures exists k :: 0 <= k < |d| && d[k].0 == y
    {
      var k :| 0 <= k < |u| && u[k] == y;
      assert d[k].0 == y;
    }
    d
  }

  /** The collections follow the distinct labels in strictly ascending order,
      one per label, each the collection built for its own id. */
  lemma CollectionsFollowLabels(rows: seq<CodeRow>, vectors: seq<Vector>, labels: seq<int>)
    requires |rows| == |labels| && |vectors| == |labels|
    ensures BuildCollections(rows, vectors, labels).Ok?
    ensures var cs := BuildCollections(rows, vectors, labels).value;
      && StrictlyIncreasing(ClusterIds(cs))
      && (forall y :: y in ClusterIds(cs) <==> y in labels)
      && (forall k :: 0 <= k < |cs| ==> cs[k] == BuildCollection(rows, vectors, labels, cs[k].clusterId))
  {
    var cs := BuildCollections(rows, vectors, labels).value;
    var u := UniqueSorted(labels);
    GroupIds(rows, vectors, labels);
    assert ClusterIds(cs) == u;
    forall k | 0 <= k < |cs|
      ensures cs[k] == BuildCollection(rows, vectors, labels, cs[k].clusterId)
    {
      // GroupIds gives cs[k].clusterId == u[k]; the comprehension defining
      // BuildGroups gives the rest once this statement names each k.
    }
  }

  /** No collection is empty: each is for a label that occurs, and holds as
      many documents as rows carry that label. */
  lemma CollectionsNonEmpty(rows: seq<CodeRow>, vectors: seq<Vector>, labels: seq<int>)
    requires |rows| == |labels| && |vectors| == |labels|
    ensures var cs := BuildCollections(rows, vectors, labels).value;
      forall k :: 0 <= k < |cs| ==>
        cs[k].clusterId in labels && |cs[k].documents| == multiset(labels)[cs[k].clusterId] > 0
  {
    var cs := BuildCollections(rows, vectors, labels).value;
    var u := UniqueSorted(labels);
    GroupIds(rows, vectors, labels);
    forall k | 0 <= k < |cs|
      ensures cs[k].clusterId in labels && |cs[k].documents| == multiset(labels)[cs[k].clusterId] > 0
    {
      assert u[k] in u;
      DocumentsCopyRows(rows, vectors, labels, u[k]);
    }
  }

  /** Each collection is named `g_codes_cluster_` followed by its id, so no two
      collections of one build share a name. */
  lemma CollectionNamesDistinct(rows: seq<CodeRow>, vectors: seq<Vector>, labels: seq<int>)
    requires |rows| == |labels| && |vectors| == |labels|
    ensures var cs := BuildCollections(rows, vectors, labels).value;
      && (forall k :: 0 <= k < |cs| ==> cs[k].name == "g_codes_cluster_" + IntToString(cs[k].clusterId))
      && (forall k1, k2 :: 0 <= k1 < k2 < |cs| ==> cs[k1].name != cs[k2].name)
  {
    var cs := BuildCollections(rows, vectors, labels).value;
    var u := UniqueSorted(labels);
    GroupIds(rows, vectors, labels);
    forall k1, k2 | 0 <= k1 < k2 < |cs|
      ensures cs[k1].name != cs[k2].name
    {
      assert cs[k1].clusterId < cs[k2].clusterId;
      if cs[k1].name == cs[k2].name {
        CollectionNameInjective(cs[k1].clusterId, cs[k2].clusterId);
      }
    }
  }

  /** The collection built for `id` carries that id, and its document j copies
      the j-th row the mask `labels == id` selects, so the rows keep their
      original relative order: the long description as
      text, code and short description as metadata, and `id` as `cluster_id`.
      The embedding rows are selected by the same mask, so they line up with
      the documents. */
  lemma DocumentsCopyRows(rows: seq<CodeRow>, vectors: seq<Vector>, labels: seq<int>, id: int)
    requires |rows| == |labels| && |vectors| == |labels|
    ensures var c := BuildCollection(rows, vectors, labels, id);
      var ix := Indices(labels, id);
      && c.clusterId == id
      && StrictlyIncreasing(ix)
      && |c.documents| == |ix| == |c.vectors|
      && forall j :: 0 <= j < |ix| ==>
        && c.documents[j].pageContent == rows[ix[j]].longDescription
        && c.documents[j].icdCode == rows[ix[j]].icdCode
        && c.documents[j].shortDescription == rows[ix[j]].shortDescription
        && c.documents[j].clusterId == id == labels[ix[j]]
        && c.vectors[j] == vectors[ix[j]]
  {
  }

  /** Every row lands in exactly one collection, the one whose id is its label. */
  lemma RowInExactlyOneCollection(rows: seq<CodeRow>, vectors: seq<Vector>, labels: seq<int>, i: int)
    requires |rows| == |labels| && |vectors| == |labels|
    requires 0 <= i < |rows|
    ensures var cs := BuildCollections(rows, vectors, labels).value;
      exists k :: 0 <= k < |cs| && cs[k].clusterId == labels[i] &&
        forall k' :: 0 <= k' < |cs| ==>
          (i in Indices(labels, cs[k'].clusterId) <==> k' == k)
  {
    var cs := BuildCollections(rows, vectors, labels).value;
    GroupIds(rows, vectors, labels);
    var k := PositionInExactlyOneMask(labels, i);
    assert cs[k].clusterId == labels[i];
    assert forall k' :: 0 <= k' < |cs| ==> (i in Indices(labels, cs[k'].clusterId) <==> k' == k);
  }

  /** The collections' ids are the distinct labels, position by position. */
  lemma GroupIds(rows: seq<CodeRow>, vectors: seq<Vector>, labels: seq<int>)
    requires |rows| == |labels| && |vectors| == |labels|
    ensures var cs := BuildCollections(rows, vectors, labels).value;
      |cs| == |UniqueSorted(labels)| &&
      forall k :: 0 <= k < |cs| ==>
        cs[k].clusterId == UniqueSorted(labels)[k] && cs[k].name == CollectionName(cs[k].clusterId)
  {
    var cs := BuildCollections(rows, vectors, labels).value;
    forall k | 0 <= k < |cs|
      ensures cs[k].clusterId == UniqueSorted(labels)[k] && cs[k].name == CollectionName(cs[k].clusterId)
    {
      // The comprehension defining BuildGroups gives cs[k] once this
      // statement names each k.
    }
  }

  /** The collection sizes add up to the number of rows: nothing is dropped and
      nothing is duplicated. */
  lemma CollectionSizesSum(rows: seq<CodeRow>, vectors: seq<Vector>, labels: seq<int>)
    requires |rows| == |labels| && |vectors| == |labels|
    ensures SumSizes(BuildCollections(rows, vectors, labels).value) == |rows|
  {
    var u := UniqueSorted(labels);
    SumSizesOfGroups(rows, vectors, labels, u);
    TotalCountOfUnique(u, labels);
  }

  lemma SumSizesOfGroups(rows: seq<CodeRow>, vectors: seq<Vector>, labels: seq<int>, ids: seq<int>)
    requires |rows| == |labels| && |vectors| == |labels|
    ensures SumSizes(BuildGroups(rows, vectors, labels, ids)) == TotalCount(ids, labels)
  {
    var cs := BuildGroups(rows, vectors, labels, ids);
    forall k | 0 <= k < |cs|
      ensures |cs[k].documents| == multiset(labels)[ids[k]]
    {
      DocumentsCopyRows(rows, vectors, labels, ids[k]);
    }
    SumSizesOfCounts(cs, ids, labels);
  }

  /** Collections whose sizes are the label counts of `ids` add up to the total
      count of `ids`. */
  lemma {:induction false} SumSizesOfCounts(cs: seq<Collection>, ids: seq<int>, labels: seq<int>)
    requires |cs| == |ids|
    requires forall k :: 0 <= k < |cs| ==> |cs[k].documents| == multiset(labels)[ids[k]]
    ensures SumSizes(cs) == TotalCount(ids, labels)
    decreases |cs|
  {
    if cs != [] {
      SumSizesOfCounts(cs[1..], ids[1..], labels);
    }
  }

  /** The reported distribution lists the same ids, in the same order, as the
      collections, with each collection's size as its count. */
  lemma DistributionMatchesCollections(rows: seq<CodeRow>, vectors: seq<Vector>, labels: seq<int>)
    requires |rows| == |labels| && |vectors| == |labels|
    ensures var cs := BuildCollections(rows, vectors, labels).value;
      var d := Distribution(labels);
      |d| == |cs| && forall k :: 0 <= k < |cs| ==> d[k] == (cs[k].clusterId, |cs[k].documents|)
  {
    var cs := BuildCollections(rows, vectors, labels).value;
    var u := UniqueSorted(labels);
    forall k | 0 <= k < |cs|
      ensures Distribution(labels)[k] == (cs[k].clusterId, |cs[k].documents|)
    {
      DocumentsCopyRows(rows, vectors, labels, u[k]);
    }
  }

  /** Position j of a collection's embedding rows is the embedding of its
      document j's text. */
  predicate EmbedsDocuments(c: Collection, embed: string -> Vector) {
    forall j :: 0 <= j < |c.documents| ==>
      j < |c.vectors| && c.vectors[j] == embed(c.documents[j].pageContent)
  }

  /** When the embedding rows are the row embeddings, each collection's vector
      at position j is the embedding of its document j's text, so embedding the
      documents again in the store gives the same vectors. */
  lemma VectorsEmbedDocuments(rows: seq<CodeRow>, vectors: seq<Vector>, labels: seq<int>, embed: string -> Vector)
    requires |rows| == |labels|
    requires EmbeddingsOf(rows, embed, vectors)
    ensures BuildCollections(rows, vectors, labels).Ok?
    ensures var cs := BuildCollections(rows, vectors, labels).value;
      forall k :: 0 <= k < |cs| ==> EmbedsDocuments(cs[k], embed)
  {
    assert |vectors| == |labels|;
    var u := UniqueSorted(labels);
    var cs := BuildCollections(rows, vectors, labels).value;
    assert |labels| > 0 ==> cs == BuildGroups(rows, vectors, labels, u);
    forall k | 0 <= k < |cs|
      ensures EmbedsDocuments(cs[k], embed)
    {
      CollectionVectorsEmbedDocuments(rows, vectors, labels, embed, u[k]);
    }
  }

  lemma CollectionVectorsEmbedDocuments(rows: seq<CodeRow>, vectors: seq<Vector>, labels: seq<int>, embed: string -> Vector, id: int)
    requires |rows| == |labels|
    requires EmbeddingsOf(rows, embed, vectors)
    ensures EmbedsDocuments(BuildCollection(rows, vectors, labels, id), embed)
  {
    DocumentsCopyRows(rows, vectors, labels, id);
  }
}
