/** One hybrid search against the movie index (`search_couchbase`).

    The text is embedded, a request holding a single vector query is built,
    the store is asked once with the result limit, the returned fields and the
    raw filter as options, and every row the store yields becomes a
    `(fields, score)` pair. The embedding model and the store are outside the
    model: they are the function parameters `embed` and `store`, and the
    vector entries, the row fields, the scores and the exceptions are left
    abstract (`V`, `D`, `S`, `E`). */
module HybridSearch {
  import opened Wrappers
  import opened FilterBuilder

  /** The defaults of the Python signature: five results, all fields (the
      default raw options, the empty dictionary, are `None`). */
  const DefaultK: int := 5
  const AllFields: seq<string> := ["*"]

  /** `VectorQuery(embedding_key, search_embedding, k)`: the vector field, the
      query vector and the number of neighbours asked for. */
  datatype VectorQuery<V> = VectorQuery(fieldName: string, vector: seq<V>, numCandidates: int)

  /** `VectorSearch.from_vector_query(...)`: a vector search made of its queries. */
  datatype VectorSearch<V> = VectorSearch(queries: seq<VectorQuery<V>>)

  /** `SearchRequest.create(...)`: the request wraps the vector search only. */
  datatype SearchRequest<V> = SearchRequest(vectorSearch: VectorSearch<V>)

  /** `SearchOptions(limit=k, fields=fields, raw=search_options)`. A `raw` of
      `None` is the default empty dictionary. */
  datatype SearchOptions = SearchOptions(limit: int, fields: seq<string>, raw: Option<Filter>)

  /** The arguments of one `db_scope.search(index_name, search_req, options)` call. */
  datatype StoreCall<V> = StoreCall(indexName: string, request: SearchRequest<V>, options: SearchOptions)

  /** One row of the store's answer. */
  datatype Row<D, S> = Row(fields: D, score: S)

  /** What the store does with a call: it yields `rows` in its own order and
      then, if `failure` is present, raises it (at the call itself when
      `rows` is empty, or part-way through the iteration). */
  datatype StoreAnswer<D, S, E> = StoreAnswer(rows: seq<Row<D, S>>, failure: Option<E>)

  /** The one store call `search_couchbase` makes for an embedded text: the
      same `k` is the neighbour count of the single vector query and the
      result limit, and the filter travels only as the raw options. */
  function SearchCall<V>(indexName: string, embeddingKey: string, vector: seq<V>,
                         k: int, fields: seq<string>, searchOptions: Option<Filter>): StoreCall<V>
  {
    StoreCall(indexName,
              SearchRequest(VectorSearch([VectorQuery(embeddingKey, vector, k)])),
              SearchOptions(k, fields, searchOptions))
  }

  /** `search_couchbase`. An exception of the embedding call propagates before
      the store is reached; an exception of the store is re-raised as it is,
      and the pairs collected so far are dropped. Otherwise the result holds
      one `(fields, score)` pair per row, in the store's order. `k` is not
      checked here. The ghost out-parameter `calls` is the method's own record
      of the store call it makes: `store` is a pure function, so its clauses
      about `calls` are bookkeeping kept by the body, while the clauses about
      `r` pin the one call whose answer the result comes from. Omitted
      arguments take the Python defaults: `k` five, every field, and the empty
      raw options. */
  method SearchCouchbase<V, D, S, E>(
    embed: string -> Result<seq<V>, E>,
    store: StoreCall<V> -> StoreAnswer<D, S, E>,
    indexName: string, embeddingKey: string, searchText: string,
    k: int := DefaultK, fields: seq<string> := AllFields, searchOptions: Option<Filter> := None)
    returns (r: Result<seq<(D, S)>, E>, ghost calls: seq<StoreCall<V>>)
    // An embedding failure propagates and the store is not asked.
    ensures embed(searchText).Err? ==> r == Err(embed(searchText).error)
    ensures embed(searchText).Err? ==> calls == []
    // Otherwise the store is asked exactly once, with the request and options
    // of `SearchCall`.
    ensures embed(searchText).Ok? ==>
      calls == [SearchCall(indexName, embeddingKey, embed(searchText).value, k, fields, searchOptions)]
    // A store failure is re-raised, never turned into an empty result.
    ensures embed(searchText).Ok? ==>
      var answer := store(SearchCall(indexName, embeddingKey, embed(searchText).value, k, fields, searchOptions));
      answer.failure.Some? ==> r == Err(answer.failure.value)
    // Without failure: exactly the store's rows, one pair each, in order.
    ensures embed(searchText).Ok? ==>
      var answer := store(SearchCall(indexName, embeddingKey, embed(searchText).value, k, fields, searchOptions));
      answer.failure.None? ==>
        r.Ok? && |r.value| == |answer.rows|
        && forall i :: 0 <= i < |answer.rows| ==> r.value[i] == (answer.rows[i].fields, answer.rows[i].score)
  {
    var embedded := embed(searchText);
    if embedded.Err? {
      return Err(embedded.error), [];
    }
    var searchEmbedding := embedded.value;
    var searchRequest := SearchRequest(VectorSearch([VectorQuery(embeddingKey, searchEmbedding, k)]));

    var docsWithScore: seq<(D, S)> := [];
    var call := StoreCall(indexName, searchRequest, SearchOptions(k, fields, searchOptions));
    calls := [call];
    var answer := store(call);
    var rows := answer.rows;
    for i := 0 to |rows|
      invariant |docsWithScore| == i
      invariant forall j :: 0 <= j < i ==> docsWithScore[j] == (rows[j].fields, rows[j].score)
    {
      var row := rows[i];
      var score := row.score;
      docsWithScore := docsWithScore + [(row.fields, score)];
    }
    if answer.failure.Some? {
      return Err(answer.failure.value), calls;
    }
    r := Ok(docsWithScore);
  }
}
