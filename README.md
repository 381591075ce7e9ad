# Hybrid movie search: filter construction and search request, in Dafny

This project models the core of a small movie-search application that queries a
Couchbase Full-Text-Search index with a vector query (the embedded search text)
and a structured filter (release-year range, minimum IMDB rating, title phrase).
Two operations of `hybrid_search.py` are modelled:

- `create_filter` (module `FilterBuilder`, file `filter_builder.dfy`): turns the
  year range, the minimum rating, the "search in title" flag and the title into
  the dictionary `{"query": {"conjuncts": [...]}}`. The model is the method
  `CreateFilter`, which appends the present conditions to a local list as the
  source does; the function `Conjuncts` names the expected conjunction, and the
  lemmas state what it is: which conditions appear (each decided by Python
  truthiness), in which order, with which field, bounds and flags, and, under
  the intended reading of those flags, which documents the filter selects.
- `search_couchbase` (module `HybridSearch`, file `hybrid_search.dfy`): embeds
  the text, builds one request with a single vector query, asks the store once,
  and collects one `(fields, score)` pair per returned row in a loop. The
  embedding model and the store are function parameters; vector entries, row
  fields, scores and exceptions are abstract type parameters. A ghost
  out-parameter is the method's own record of the store call it makes. Omitted
  arguments take the Python defaults (`k` five, all fields, no raw options).

`Wrappers` (`wrappers.dfy`) holds `Option` (Python's `None`) and `Result`
(a returned value or a raised exception).

Points where the code's behaviour may differ from what a reader would expect;
the model follows the code:

- The title condition depends on the flag alone; the title is copied verbatim,
  even when it is empty.
- A one-element year tuple makes `year_range[1]` raise `IndexError`; the model
  returns `Err(IndexError(1, 1))`, although filter construction is meant never
  to fail.
- Longer year tuples are accepted and only their first two entries are read.
- The filter does not enter the vector request: it reaches the store only as
  the raw search options, next to the limit and the field list.
- `k >= 1` is not checked by `search_couchbase` (only the number widget of the
  page enforces it), so `SearchCouchbase` has no precondition on `k`; no field
  name is validated either.
- The source re-raises the very exception it caught; embedding and store
  failures are not wrapped in distinct error kinds. The model tells them apart
  by the store-call record: empty for an embedding failure, one call for a
  store failure.

## Model

| member | source | states |
|---|---|---|
| FilterBuilder.CreateFilter | hybrid_search.py:40-76 | fails exactly when the year tuple has one element (index 1 out of range); otherwise returns the conjunction of the present conditions in the order year, rating, title; no state is touched, so equal inputs give equal filters |
| FilterBuilder.Conjuncts | hybrid_search.py:49-75 | the conjunction has one entry per present condition, hence at most three |
| FilterBuilder.NothingPresentGivesEmptyConjunction | hybrid_search.py:49-75 | empty year tuple, absent or zero rating and flag off give the empty conjunction |
| FilterBuilder.ConjunctsOrdered | hybrid_search.py:50-74 | entries strictly increase in kind order year < rating < title, so the order is fixed and no kind repeats |
| FilterBuilder.YearConditionIff | hybrid_search.py:51-59 | a range condition appears if and only if the year tuple is non-empty, and it is on `Released_Year` with min and max the first two entries, both inclusive |
| FilterBuilder.ReversedYearRangePassesThrough | hybrid_search.py:51-59 | a reversed range (2020, 1990) is emitted unchanged, min above max |
| FilterBuilder.RatingConditionIff | hybrid_search.py:60-67 | a threshold condition appears if and only if the rating is present and non-zero, and it is on `IMDB_Rating` with the rating as a strict lower bound |
| FilterBuilder.TitleConditionIff | hybrid_search.py:68-74 | a phrase condition appears if and only if the flag is set, and it is on `Series_Title` with the title verbatim |
| FilterBuilder.EmptyConjunctionMatchesAll | hybrid_search.py:75 | the empty conjunction lets every document through |
| FilterBuilder.FilterMeaning | hybrid_search.py:51-75 | a document passes the built filter if and only if its year is within the inclusive range when one is given, its rating strictly exceeds a truthy minimum rating, and its title contains the phrase when title search is on |
| FilterBuilder.RatingTieExcluded | hybrid_search.py:60-67 | a document whose rating equals the minimum rating is filtered out |
| HybridSearch.SearchCouchbase | hybrid_search.py:79-124 | an embedding failure propagates and the store is never asked; otherwise the store is asked exactly once, with the call `SearchCall` describes: the same `k` as the vector query's neighbour count and as the result limit, the fields unchanged and the filter only as raw options; a store failure is re-raised rather than turned into an empty list; otherwise the result has exactly one `(fields, score)` pair per row, in the store's order, with no re-sorting, filtering or deduplication, so an empty answer gives an empty list |

## Left out

- The Streamlit page and the `__main__` block (widgets, layout, images, score formatting): presentation.
- `generate_embeddings` and the Gemini translation calls: foreign network calls; the embedding is the function parameter `embed` of `SearchCouchbase`.
- `connect_to_couchbase` and the Couchbase SDK classes: connection plumbing and library internals; requests and options are plain records, and the store is the function parameter `store`.
- The `st.cache_resource` cache around `create_filter`: framework behaviour; only the purity it relies on is stated.
- `ingest.py` (CSV loading, numeric conversion, default values, per-row embedding and upsert with random identifiers): I/O, floating point and foreign calls.
- Ratings are real numbers: NaN (truthy in Python) and negative zero are not modelled; `None` and `0.0` are the absent ratings.
- Year tuples are sequences of integers; `None` is modelled as the empty tuple, and non-integer entries are not modelled.
- FilterBuilder.Matches: the conjunction semantics (every entry holds, and the empty list admits every document) is the intended reading of the filter, not the search engine's proved behaviour; how the store combines the raw query with the vector query is not modelled, so passing the filter is not linked to being returned.
- FilterBuilder.Holds: phrase matching is modelled as a contiguous occurrence of the phrase in the title; the search engine's text analysis (tokenising, case folding) is not modelled.
- Whether the store returns rows sorted by score: scores are opaque, so the model states only that the store's order is kept.
- Concurrency and cancellation: nothing in the code implements them.
