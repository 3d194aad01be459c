# ICD-10 code index builder — Dafny model

This project models the deterministic core of the offline index builder of an
ICD-10 "G-code" assignment service (`scripts/build_vector_store.py`). The
builder embeds every catalog row's long description. It then picks a cluster
count by trying every candidate k and keeping the one with the best silhouette
score. Finally it splits the catalog into one vector-store collection per
cluster label, named `g_codes_cluster_<id>`.

The model is functional. Catalog rows are immutable records, labels a
`seq<int>`, and the embedding service and the silhouette score are
uninterpreted function parameters (`embed: string -> seq<real>`,
`score: int -> real`). The cluster-count search is an imperative method whose
loop invariants carry the proof.

Modules:

- `Results` (`results.dfy`): `Option` and `Result`.
- `Decimal` (`decimal.dfy`): Python's decimal rendering of an int, with a parser proving it injective.
- `PyRange` (`py_range.dfy`): Python's `range(start, stop, step)` for either sign of step.
- `ClusterSearch` (`cluster_search.dfy`): `find_optimal_clusters`.
- `Catalog` (`catalog.dfy`): code rows and `generate_embeddings`.
- `Labels` (`labels.dfy`): `np.unique` and boolean-mask selection.
- `Collections` (`collections.dfy`): `build_chroma_collections` and the cluster distribution.

Behaviour of the script worth noting:

- `generate_embeddings` checks no dimension itself. Its final `np.array(embeddings)` raises ValueError when the vectors differ in length; the model returns `Err(RaggedEmbeddings)` in that case.
- The tie-break "smallest k" holds only for a positive step; for a negative step the first maximum is the largest k.
- With no labels at all, the code builds nothing and raises nothing, even when row and label counts differ. Mask lengths are checked only when at least one label exists.

## Model

| member | source | states |
|---|---|---|
| ClusterSearch.FindOptimalClusters | scripts/build_vector_store.py:92-117 | A zero step is an error (Python's range refuses it); otherwise the result is `min_k` when no candidate of `range(min_k, max_k+1, step)` scores above -1, and else the first candidate with the maximum score |
| ClusterSearch.ChoiceUnique | scripts/build_vector_store.py:103-114 | The search contract determines the answer: two values meeting it are equal |
| ClusterSearch.ChoiceDefault | scripts/build_vector_store.py:103-106 | With a positive step, an empty range (`min_k > max_k`) or no score above -1 yields `min_k` |
| ClusterSearch.ChoiceIsCandidate | scripts/build_vector_store.py:104-114 | With a positive step the result is `min_k` or some `min_k + i*step` not above `max_k`; when a score beats -1 it is always such a candidate |
| ClusterSearch.ChoiceIsBest | scripts/build_vector_store.py:112-114 | When some score beats -1, the chosen k scores above -1 and at least as high as every candidate, and every smaller candidate scores strictly lower (ties go to the smallest k) |
| ClusterSearch.CandidateIndex | scripts/build_vector_store.py:106 | Every `min_k + i*step` up to `max_k` is the candidate at position i |
| PyRange.RangeElements | scripts/build_vector_store.py:106 | The i-th value of a stepped range is `start + i*step` and lies before `stop` |
| PyRange.RangeComplete | scripts/build_vector_store.py:106 | No in-bounds value `start + i*step` is skipped |
| Catalog.GenerateEmbeddings | scripts/build_vector_store.py:69-89 | Fails exactly when two rows' embeddings differ in length (the matrix would be ragged); otherwise exactly one vector per row, in row order, each the embedding of that row's long description |
| Labels.UniqueSorted | scripts/build_vector_store.py:153 | The distinct labels: strictly ascending, containing exactly the values that occur |
| Labels.StrictlyIncreasingUnique | scripts/build_vector_store.py:153 | A strictly ascending sequence is fixed by its elements, so the distinct-label list is unique |
| Labels.Indices | scripts/build_vector_store.py:160 | The mask `labels == id` selects, in ascending order, exactly the positions labelled `id`, as many as `id` occurs |
| Labels.InIndices | scripts/build_vector_store.py:160 | A position is selected by the mask exactly when its label is the id |
| Labels.Select | scripts/build_vector_store.py:161-162 | Mask selection keeps the selected elements in original order, one per selected position |
| Decimal.ParseIntToString | scripts/build_vector_store.py:156 | The decimal rendering of an id parses back to the id |
| Decimal.IntToString | scripts/build_vector_store.py:156 | Python's `str` of an int is non-empty, starts with a minus sign exactly for negative ids, and the rest is decimal digits without a leading zero |
| Decimal.IntToStringInjective | scripts/build_vector_store.py:156 | Distinct ids render to distinct strings |
| Collections.CollectionNameRoundTrip | scripts/build_vector_store.py:156 | The cluster id can be read back from the collection name |
| Collections.CollectionNameInjective | scripts/build_vector_store.py:156 | Different clusters never share a collection name |
| Collections.BuildCollections | scripts/build_vector_store.py:140-191 | The build fails exactly when some label exists and the row table or the embedding matrix is not as long as the labels; a short row table is reported before a short matrix, as the row mask is applied first; a build that succeeds has no more collections than labels |
| Collections.Distribution | scripts/build_vector_store.py:133-135 | `np.unique(labels, return_counts=True)`: the ids are strictly ascending, every id occurs among the labels with its count as the paired number (so no count is zero), and every label is listed |
| Collections.CollectionsNonEmpty | scripts/build_vector_store.py:155-175 | Every collection is for a label that occurs and holds as many documents as rows carry that label, so none is empty |
| Collections.CollectionsFollowLabels | scripts/build_vector_store.py:153-155 | One collection per distinct label, in strictly ascending id order, each the collection built for its own id |
| Collections.CollectionNamesDistinct | scripts/build_vector_store.py:155-156 | Each collection is named `g_codes_cluster_` + its id, and the names of one build are pairwise distinct |
| Collections.DocumentsCopyRows | scripts/build_vector_store.py:159-175 | The collection for an id carries that id; the selected positions are strictly ascending, so the rows keep their table order; its document j holds the long description, code and short description of the j-th row the mask `labels == id` selects, and the id as `cluster_id`; the masked embedding rows line up with the documents |
| Collections.RowInExactlyOneCollection | scripts/build_vector_store.py:159-166 | Each row's position is selected by exactly one collection, the one whose id is its label |
| Collections.CollectionSizesSum | scripts/build_vector_store.py:159-175 | The collection sizes add up to the number of rows |
| Collections.DistributionMatchesCollections | scripts/build_vector_store.py:133-135 | The reported per-cluster counts list the same ids in the same order as the collections, with each collection's size |
| Collections.VectorsEmbedDocuments | scripts/build_vector_store.py:162-187 | When the embedding rows come from the embedding step, each collection vector is the embedding of its document's text |

## Left out

- `load_codes` (CSV reading and database `get_or_create`): file and database I/O; rows are an input of the model.
- The embedding provider: it becomes the uninterpreted parameter `embed`. The provider's failure modes are not modelled.
- Agglomerative clustering and the silhouette score: foreign library numerics. Labels are an input and the score is the uninterpreted parameter `score`. Exceptions the library raises for an unsuitable k are not modelled.
- Floating point: scores are `real`, so NaN scores are not modelled.
- The vector-store write (`Chroma.from_documents`): persistence. The model stops at the list of collections that would be written, in build order. The store re-embeds page content itself, through the provider's document call, and ignores the precomputed vectors, which came from the provider's query call. The model treats the two calls as one deterministic function `embed`; under that assumption `Collections.VectorsEmbedDocuments` shows the re-embedding changes nothing. A provider whose query and document embeddings differ, or that is not deterministic, is not modelled.
- Progress and distribution printing: console output. The counts behind the distribution are modelled as `Collections.Distribution`.
- `scripts/inspect_clusters.py`: reads the store back and prints it.
- `scripts/test_api_script.py`, `ai_coding_app/app/admin.py`, `ai_coding_app/app/models.py`, `ai_coding_app/app/views.py`: HTTP client calls, admin configuration and test scaffolding, outside the builder.
- The online search and chart-coding path: `build_vector_store.py` only builds the index, and querying it is outside this script.
- Catalog.GenerateEmbeddings: follows numpy 1.24 and later, where stacking vectors of different lengths raises ValueError. Older numpy versions build an object array and continue; that behaviour is not modelled.
