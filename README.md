# Recommender engine, modelled in Dafny

This project models the recommendation engine of a product web shop (`Recommender` in
`recommender.py`). At start-up the engine holds a set of trained artefacts:

- an ALS matrix-factorisation model (user and item factor matrices);
- label encoders for usernames and item codes (ASINs);
- the user–item interaction ledger;
- a configuration with a cold-start threshold;
- a popularity list;
- an item metadata table.

From the metadata table it builds a map from each main category to that category's items.

A request (`recommend`) is routed to one of three paths:

- **Matrix factorisation** for known users. The engine scores every item with the user's
  factor row, masks the items the user already interacted with and the items of the
  current session, and returns the top k.
- **Session history** (the "live" path) for unknown or low-history users who have a
  session. The engine averages the factor rows of the session's known items, ranks every
  item by similarity to that profile and masks the session items. When no session item
  is known, it falls back to the most common category among the session's items and
  samples from it.
- **Cold start**: the first entries of the popularity list that have metadata.

Every path ends in the metadata resolver, which looks the chosen codes up in the product
store and cleans their image field.

## Layout

- `basics.dfy` (`Basics`): `Option` and `Result`, the faults that escape to callers, and
  sequence facts: distinctness, order-preserving subsequences and filtering.
- `codec.dfy` (`Codec`): the label encoder as a list of classes, with encoding, decoding
  and the list of known indices.
- `ranking.dfy` (`Ranking`):
  - scores with an explicit minus-infinity;
  - dot products and the mean factor row;
  - masking in place on an array;
  - top-k stated relationally, the way `argsort()[::-1][:k]` chooses it;
  - the facts about masked items in the top k.
- `catalog.dfy` (`Catalog`): the metadata table and its index, the category map, the
  product records, image normalisation and the resolver.
- `fallback.dfy` (`Fallback`): the majority category with its tie-break, the candidate
  filter, `random.sample` driven by supplied draws, and the cold-start selection.
- `engine.dfy` (`Engine`): the `Recommender` class, which holds the artefacts as constant
  fields. It has imperative methods for each request path and ghost predicates stating
  each path's outcome, including the error paths. It also holds lemmas about the replies.

A reply (`Engine.Reply`) has three fields:

- the product records, which are what the source returns;
- the item codes they were resolved from;
- the path that chose those codes.

Exceptions that reach the caller are `Failure` values. There are three:

- the ledger lookup, which `recommend` performs outside its `try`;
- the indexing and decoding in `recommend_from_history`, which has no `try`;
- `inverse_transform` in cold start.

Exceptions inside the guarded factorisation block become the cold-start reply, as the
source's `except` does.

Things outside the engine become parameters:

- the random draws of the category fallback;
- `ast.literal_eval`, as a partial function from a string to a list of strings;
- cosine similarity, as a function of an item row and the session profile;
- the product store, as a map from code to record.

## Model

| member | source | states |
|---|---|---|
| Engine.Route | recommender.py:98-123 | The session-history path is taken exactly when the user is unknown, or has fewer interactions than the threshold, and the session is non-empty. An unknown user with no session gets cold start. Every other known user, including one below the threshold with an empty session, gets matrix factorisation. |
| Engine.Recommender.Recommend | recommender.py:89-150 | The reply satisfies `RecommendOutcome`. A missing session is the empty list. A known user without a ledger row gets a `LedgerRowMissing` failure. Otherwise the reply is the outcome of the routed path: history, cold start, or factorisation. Factorisation degrades to exactly the cold-start reply when its guarded block raises. |
| Engine.Recommender.RecommendReplyBound | recommender.py:89-251 | Every successful reply holds at most k item codes and at most k records, and its records are the store's records for its codes. A reply chosen by factorisation, session history or category repeats no code. |
| Engine.Recommender.RecommendRecordsDistinct | recommender.py:50-87 | In a store keyed by item code, the records of a reply chosen by factorisation, session history or category repeat no item. |
| Engine.Recommender.Threshold | recommender.py:110 | The threshold is the configured `cold_threshold`, or 3 when the configuration has none. |
| Engine.Recommender.ConsistentNeverFails | recommender.py:89-150 | With mutually consistent artefacts, every request succeeds. A request routed to matrix factorisation is then answered by factorisation, never by the cold-start fallback. |
| Engine.Recommender.HistoryNeverFails | recommender.py:186-227 | With consistent artefacts, the history path always succeeds. |
| Engine.Recommender.FactorNeverFails | recommender.py:125-150 | With consistent artefacts, a known user routed to factorisation is answered by factorisation. |
| Engine.Recommender.TopKDecodes | recommender.py:142-143 | A top k over no more items than the encoder knows always decodes. |
| Engine.Recommender.ColdStartSucceeds | recommender.py:229-251 | With consistent artefacts, cold start never fails. |
| Engine.Recommender.ScoreForUser | recommender.py:125-144 | The block raises (`Degraded`) with the reason it raised. A missing factor row gives `FactorRowMissing`, and so does a ledger or session index outside the score vector. Factor widths that differ give `FactorShapeMismatch`. Otherwise the block returns the decoded top k of the masked dot-product scores, or `UnknownItemIndex` when a ranked index has no code. |
| Engine.Recommender.MaskSession | recommender.py:137-140 | The loop succeeds exactly when every known session item's index is inside the array. On success the array equals the old array with exactly those indices masked. |
| Engine.MaskStep | recommender.py:137-140 | One more session item extends the masked scores by masking its index when the item is known, and leaves them alone otherwise. |
| Engine.Recommender.FactorScores | recommender.py:126-140 | There is one score per item: the dot product with the user's factor row, with the ledger row and the session's known items masked. |
| Engine.Recommender.FactorMasks | recommender.py:128-140 | In the factorisation scores, an item is masked exactly when it is in the user's ledger row or its code is in the session. |
| Engine.Recommender.FactorReplyAvoidsSeen | recommender.py:126-144 | A factorisation reply holds an item from the ledger or the session only when every unmasked item is also in the reply. When at least k items are unmasked, it holds none. |
| Engine.Recommender.RecommendFromHistory | recommender.py:186-227 | The reply satisfies `HistoryOutcome`. With no known session item, it is the category fallback. A known item outside the factor matrix gives a `FactorRowMissing` failure. Otherwise it is the decoded top k of the similarity scores with the session items masked, or an `UnknownItemIndex` failure when decoding fails. |
| Engine.Recommender.RankByHistory | recommender.py:203-227 | The ranked part of the history path gives one of two results. One is the decoded top k of the similarity scores with exactly the session's known items masked, resolved against the store. The other is an `UnknownItemIndex` failure when a ranked index has no item code. |
| Engine.Recommender.ValidIndices | recommender.py:191-195 | The loop yields the indices of the session's known codes, in session order. |
| Engine.Recommender.HistoryScores | recommender.py:203-218 | Every item gets a finite score: its similarity to the mean factor row of the session's items. |
| Engine.Recommender.HistoryMasks | recommender.py:221 | An item is masked exactly when its code is in the session. |
| Engine.Recommender.HistoryReplyAvoidsSession | recommender.py:221-227 | A history reply holds a session item only when every non-session item is also in the reply. When at least k items are unmasked, it holds none. |
| Engine.RankedReplyShape | recommender.py:224-225 | A decoded top k holds exactly `min(k, N)` item codes, hence at most k. No code appears twice, and every code is a known item. |
| Engine.RankedBound | recommender.py:142-144 | A ranked reply holds at most k codes, none twice, and no more records than codes. |
| Engine.RankedReplyAvoidsMasked | recommender.py:142-143 | A masked item appears among decoded top-k codes only once every unmasked item is there too. None appears when at least k items are unmasked. |
| Engine.TopIndicesOf | recommender.py:142-143 | The ranked indices behind decoded top-k codes form a valid top k. Each one encodes the code at its position, and decoding them gives the codes back. |
| Engine.Recommender.CategoryReply | recommender.py:152-184 | A category reply fails only as the cold-start reply fails. On success it comes from the category or from popularity. It holds at most k codes and no more records than codes, resolved against the store. A category-chosen reply holds no input. |
| Engine.Recommender.CategoryReplyDistinct | recommender.py:171-182 | Under the start-up invariant, a category-chosen reply repeats no code. |
| Engine.Recommender.RecommendByCategory | recommender.py:152-184 | The reply is the category fallback's pick, resolved. When the pick hands over, the reply is the cold-start reply. |
| Engine.Recommender.InputCategories | recommender.py:156-160 | The loop collects, in input order, each input's category when the input has metadata and a non-empty category. |
| Engine.Recommender.ColdStartReply | recommender.py:229-251 | Cold start fails exactly when a decoded popularity index within the first 300 is unknown, with `UnknownItemIndex`. On success the reply comes from popularity and holds at most k codes, each with metadata, and no more records than codes. |
| Engine.Recommender.GetColdStartItems | recommender.py:229-251 | The reply is the cold-start selection, resolved. An undecodable popularity index gives an `UnknownItemIndex` failure. |
| Engine.Recommender.GetProductDetails | recommender.py:43-87 | The two loops return the store's records for the requested codes the store holds, in request order, with price empty and the image field cleaned. |
| Engine.Recommender.constructor | recommender.py:28-34 | The artefacts are held as given. The category map has a key exactly for each category some metadata row carries. Each key maps to that category's codes in table order, and no key maps to an empty list. |
| Catalog.CategoryIndexGroups | recommender.py:29-34 | The grouping has a key exactly for each carried category. Its value is that category's members, and the value is never empty. |
| Catalog.MembersInCategory | recommender.py:32-34 | Every member of a category's group has that category in the metadata index. |
| Catalog.MembersDistinct | recommender.py:32-34 | A group lists each code once. |
| Catalog.GroupKeys | recommender.py:32-33 | The groups iterated over are exactly the carried categories. |
| Catalog.MetaIndex | recommender.py:23-26 | The metadata index has a key exactly for each row's code. |
| Catalog.MetaIndexAt | recommender.py:158-159 | Looking a code up gives its row's category. |
| Catalog.ResolveDistinct | recommender.py:53-70 | In a store keyed by item code, requested codes without repeats give records without repeats. |
| Catalog.ResolveFaithful | recommender.py:50-87 | The resolved codes are the requested codes the store holds, in request order, so there are no more of them than were requested. Each record is the stored product with price empty and a non-empty image field. |
| Catalog.FoundCodes | recommender.py:55-70 | The first loop keeps, in request order, the requested codes the store holds. |
| Catalog.FoundRecords | recommender.py:55-70 | Each kept record carries the stored product's fields, with price empty. |
| Catalog.NormaliseImage | recommender.py:72-85 | The cleaned image is never empty, and a missing or empty field becomes the placeholder. |
| Catalog.Found | recommender.py:55-70 | The first loop keeps at most one record per requested code, each with price empty. |
| Catalog.Resolve | recommender.py:50-87 | There are no more records than requested codes. Each record has price empty and a non-empty image field. |
| Catalog.NormaliseImageCases | recommender.py:72-85 | The cleaned image is never empty. A list-shaped field whose parse has a non-empty first element becomes that element. One whose first element is empty becomes the placeholder. One that does not parse, or parses to an empty list, is kept unchanged. A missing or empty field becomes the placeholder. Any other non-empty field that is not list-shaped is kept. |
| Fallback.Categories | recommender.py:156-160 | The collected categories are exactly the categories of inputs that have metadata and a non-empty category. There are at most as many as there are inputs. |
| Fallback.Count | recommender.py:167 | A category's count is positive exactly when it occurs, and at most the number of collected categories. |
| Fallback.MostCommon | recommender.py:167 | The target is one of the collected categories, and none occurs more often. Of the categories with the highest count, it is the one that occurs first. |
| Fallback.BestInEarliest | recommender.py:167 | The chosen category comes no later in the candidate order than any candidate with the same count. |
| Fallback.Sample | recommender.py:181-182 | The sample has exactly the requested size and is drawn from the pool. It has no repeats when the pool has none. |
| Fallback.SampleFromPool | recommender.py:181-182 | A sample from a duplicate-free pool holds `min(k, pool)` distinct codes. Each of them is of the target category and none is an input. |
| Fallback.Candidates | recommender.py:171-173 | The candidates are exactly the target's group members that are not inputs, and none when the target has no group. |
| Fallback.PickFrom | recommender.py:162-182 | The pick hands over exactly when there are no categories or no candidates. Otherwise it holds `min(k, candidates)` candidates, at most k, with no repeats when the candidates have none. |
| Fallback.CategoryPick | recommender.py:156-182 | With no usable input category the pick hands over. A pick holds at most k codes and no input. |
| Fallback.PoolFacts | recommender.py:171-173 | The candidates are the target category's members minus the inputs, in table order and without repeats. Each has the target category and none is an input. |
| Fallback.CategoryPickSound | recommender.py:152-184 | The fallback hands over to cold start exactly when no input has a usable category, or when the target category has no member besides the inputs. Otherwise it returns `min(k, candidates)` distinct codes. Each is of the target category and none is an input. |
| Fallback.ColdStartShape | recommender.py:229-251 | Cold start fails exactly when the popularity list holds an undecodable index in its first 300 entries. A non-list artefact yields nothing. Otherwise the result is an order-preserving subsequence of the first 300 entries of length `min(k, valid)`. It consists of their first k entries that have metadata. |
| Fallback.WindowCodes | recommender.py:232-243 | The window fails exactly when an index in the first 300 entries is not decodable, with `UnknownItemIndex`. A non-list artefact gives nothing. A list of codes gives its first 300 entries. A list of indices gives, pointwise, the codes of its first 300 entries. |
| Fallback.ColdStartCodes | recommender.py:229-250 | The selection fails exactly when the window does. On success it holds at most k codes, each with metadata and taken from the window. |
| Fallback.ColdStartDistinct | recommender.py:232-247 | A popularity list without repeats gives a cold-start selection without repeats. |
| Fallback.ColdStartRepeats | recommender.py:245-247 | A popularity list of codes `["a", "a"]` with `a` in the metadata gives the selection `["a", "a"]` for k = 2: repeats survive. |
| Codec.Encode | recommender.py:98-100 | An identifier encodes exactly when the encoder knows it, and to the position that holds it. |
| Codec.DecodeAll | recommender.py:225 | Decoding succeeds exactly when every index is a valid position. It then gives, pointwise, the identifiers at those positions. |
| Codec.KnownIndices | recommender.py:191-195 | The result keeps the indices of known identifiers only. It holds the index of every known identifier, and it is empty exactly when no identifier is known. |
| Codec.EncodeDecode | recommender.py:225 | A fitted encoder, which has no repeated class, maps every valid index back to itself. |
| Codec.DecodeAllDistinct | recommender.py:225 | Distinct indices decode to distinct identifiers. |
| Ranking.MaskIndices | recommender.py:133 | The vectorised assignment succeeds exactly when every index is in range. On success the array equals the old array with exactly those indices masked. |
| Ranking.DotScores | recommender.py:129 | There is one finite score per item. |
| Ranking.MeanRow | recommender.py:203-207 | The profile has the factor width. |
| Ranking.TopK | recommender.py:142 | The greedy selection is a top k: `min(k, N)` distinct valid indices in non-increasing score order, and no index left out scores above one taken. |
| Ranking.BestBelow | recommender.py:142 | The pick is an index outside the excluded ones that no other such index outscores. There is no pick only when every index is excluded. |
| Ranking.SelectGreedy | recommender.py:142 | Every selected index scores at least as high as each index not selected before it. |
| Ranking.SelectDistinct | recommender.py:142 | No index is selected twice. |
| Ranking.SelectLength | recommender.py:142 | The selection holds exactly `min(k, N)` indices. |
| Ranking.Pigeonhole | recommender.py:142 | Distinct indices below N number at most N, and exactly N precisely when they cover every index below N. |
| Ranking.MaskedOnlyWhenExhausted | recommender.py:142 | A masked index is in a top k only when every unmasked index is in it too. |
| Ranking.NoMaskedWhenEnough | recommender.py:142 | With at least k unmasked items, no top-k index is masked. |
| Ranking.MaskedFillShortfall | recommender.py:142 | When fewer than `min(k, N)` items are unmasked, a top k holds every unmasked item and at least one masked item. |

## Left out

- Artefact loading (`load_pickle` and the parquet and npz reads) and the `print` and
  traceback logging. The artefacts are constructor parameters.
- The `'asin'`-column and `'main_cat'`-column checks of the constructor
  (recommender.py:25-26, 30). The table is modelled as always having both columns.
- Duplicate item codes in the metadata table. `UniqueAsins` requires them unique, as an
  index lookup returning one category assumes.
- Floating-point arithmetic. Scores are reals and minus infinity is an explicit
  constructor. `np.mean` is an exact mean, and NaN does not arise.
- Engine.Recommender.HistoryScores: the `normalize` calls and the cosine dot product are
  not modelled. They are the supplied `similarity` function of an item row and the mean
  profile.
- `ast.literal_eval` is the supplied `literalEval` function. The model does not parse
  Python literals.
- Fallback.Sample: `random.sample` is modelled as the pool-swap algorithm driven by a
  supplied sequence of draws. CPython's set-based variant for large pools is not
  modelled. Each result still has the same size, membership and distinctness properties.
- Ranking.TopK: the model does not fix the tie order of `argsort`'s quicksort. The model
  states top-k relationally (`IsTopK`), and `TopK` is one choice that satisfies it.
- `k` is a natural number. Python's slicing with a negative `k` is not modelled.
- Categories that are NaN in the table. In the source, `if c:` keeps a NaN category,
  because NaN is truthy (recommender.py:160). `groupby` gives NaN no group
  (recommender.py:32), so a NaN majority leaves no candidates, and the source serves cold
  start (recommender.py:175). The model has no NaN: a missing category is skipped like
  the empty string, and the majority is taken among the remaining categories.
- A popularity list that mixes integers and strings is classified by its first element,
  as the source does. Elements of the other kind are not represented.
- Errors of the product store (database exceptions) are not modelled. The store is a map.
- The objects `get_product_details` returns are plain records, not Python dicts, so
  aliasing between records is not modelled.
- `Product.query.filter(...).all()` followed by the code-to-record map is modelled as one
  map lookup per requested code. The order in which the query returns rows is irrelevant
  there.
- Engine.Recommender.HistoryReplyAvoidsSession: states "no session item is recommended"
  only when at least k items are unmasked. `argsort` keeps masked entries at the bottom,
  so with fewer unmasked items, session items fill the reply (`Ranking.MaskedFillShortfall`).
- Engine.Recommender.FactorReplyAvoidsSeen: states "no ledger or session item is
  recommended" only when at least k items are unmasked, for the same reason.
- The comment at recommender.py:209 says cosine similarity avoids the popularity
  (magnitude) bias that the raw dot product has. That is a statistical claim about
  scores, which the model does not state. The similarity is a parameter.

## Notes on the code

The model follows the code. In these places the code does something other than what a
reader of the engine's purpose would expect:

- One would expect a known user below the threshold with no session to get cold start.
  Such a user gets matrix factorisation, because the history path needs a session and
  cold start is reserved for unknown users (recommender.py:115-122).
- One would expect a reply never to recommend an item the user has already seen. It can,
  when fewer than k items are unmasked (see the two `Left out` lines above).
- `Counter.most_common(1)` breaks a tie for the highest count in favour of the category
  that occurs first in the input. It does not pick the category that reached the count
  first.
- One would expect every failure of the factorisation path to fall back to cold start.
  The ledger lookup of `recommend` (recommender.py:109) is outside the `try`, so a known
  user without a ledger row gets an escaping error.
- The cold-start reply served from the `except` branch can itself fail (an undecodable
  popularity index), so an error can still escape the factorisation path.
- An image field that is list-shaped but does not parse to a non-empty list stays as it
  is, brackets included.
- One would expect a reply to hold at most k records and to repeat no item. The bound
  holds on every path (`Engine.Recommender.RecommendReplyBound`). The no-repeat part
  holds for factorisation, session history and category replies. Cold start keeps any
  repeat in the popularity list (`valid_asins[:k]`, recommender.py:245-247), so a
  cold-start reply can name an item twice (`Fallback.ColdStartRepeats`). A list without
  repeats gives a reply without repeats (`Fallback.ColdStartDistinct`).
