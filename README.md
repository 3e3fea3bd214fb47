# Pagination core of couchbase-graphql-travel, in Dafny

The repository is a GraphQL server over the Couchbase `travel-sample` bucket. Apart from
schema and driver plumbing, its only logic is pagination, and that logic is modelled here:

- **Cursor pagination** of `routes(first, after, last, before)`. `cursorQueryAllByType`
  picks a direction. `offsetAfterQuery` or `offsetBeforeQuery` then gets back at most
  `LIMIT` rows from the store and trims them in place with `splice` and `reverse`. The
  trim drops the anchor row, or else the surplus row of a full answer. It cuts the result
  to the page size and derives `startCursor`, `endCursor`, `hasNextPage` and
  `hasPreviousPage`.
- **Offset pagination** of `hotels(limit, offset)`. From the total count, `limit` and
  `offset`, `offsetQueryAllByType` computes `currentPage`, `pagesCount` and the two flags.
- **Field flattening**: the top-level field names a request selects are joined with `,`
  into the projection list of the query.

Modules, one per component:

- `Wrappers` holds `Option` and `Result`.
- `Pages` holds the rows, the page objects, the error kinds and the JavaScript behaviours
  the trims rely on: truthiness, `splice(-1)`, `reverse()`, and the `TypeError` raised on
  `edges[0].cursor` of an empty array.
- `Forward` models `offsetAfterQuery`.
- `Backward` models `offsetBeforeQuery`.
- `CursorQuery` models the dispatch.
- `OffsetQuery` models the offset metadata.
- `Fields` models the projection list.

Each trim is an imperative `method` over a local `edges` sequence. It does the same splices
in the same order as the source. It is proved equal to a closed-form function that
describes the page as a slice of the fetched rows. The properties are proved about that
function, as its `ensures` and as lemmas. The store's answer is an input: a sequence of
rows no longer than the LIMIT the code asks for, and no rows at all when that LIMIT is
negative (`first <= -3`, or `last <= -3` with `before`, or `last <= -2` without). The code
accepts such sizes, and the trims then end in the `TypeError` of an empty page.

Behaviours of the code that a reader might not expect, all modelled as the code has them:

- **Forward LIMIT.** The code never asks for `first + 1` rows forward. Line 186 replaces
  a missing `after` by the number 10, so line 196 always asks for `first + 2`.
  `Forward.MissingAfterIsFirstPlusOne` proves that the page is still the one a `first + 1`
  query would give.
- **Direction arguments.** The code checks neither the sign of `first` and `last` nor a
  request that gives both. `first: 0` and `last: 0` are falsy and fall through to the
  next branch or to 10. A truthy `after` always pages forward. Otherwise a truthy
  `before` pages backward, even alongside `first`. Without either cursor, a truthy
  `first` pages forward, else a truthy `last` pages backward, so `{first: 0, last: 5}`
  is served backward. `CursorQuery.Dispatch` states these rules, and
  `CursorQuery.NegativeFirstFails` follows a negative `first` to its empty-page failure.
- **Empty page.** On an empty answer, lines 203 and 244 read `cursor` off a missing
  element, and on an empty page lines 217 and 260 do. The resulting `TypeError` is
  modelled as `Failure(UndefinedRow)`.
- **Zero or negative limit.** With `limit: 0`, line 291 or 292 divides by zero and the
  page numbers become Infinity or NaN. The `Int!` fields cannot carry them:
  `Failure(NonIntegerField)`. A negative limit is computed with JavaScript's floor
  division.
- **32-bit page numbers.** GraphQL's `Int` is 32 bits. A page number beyond that range
  cannot be serialized, for example `currentPage` 2^31 for `limit: 1` at the largest
  offset. This is also `Failure(NonIntegerField)`.
- **Empty projection.** An empty field list is joined into "", so the query's projection
  is then empty.
- **Backward trim.** Line 244 tests the wrong end of the answer for the anchor (see
  Findings).

## Model

| member | source | states |
|---|---|---|
| Pages.DropLast | index.js:207 | `edges.splice(-1)`: one element fewer, and an empty array stays empty |
| Pages.DropLastRemovesLast | index.js:212 | `splice(-1)` on a non-empty array removes its last element and keeps the rest in order: putting that element back gives the array again |
| Pages.Reversed | index.js:258 | `edges.reverse()` keeps the number of edges |
| Pages.ReversedAt | index.js:258 | after `reverse()`, element `i` is the element that stood at `n - 1 - i` |
| Pages.ReversedTwice | index.js:258 | reversing twice gives the array back |
| Pages.Assemble | index.js:216-221 | the page object fails with the `TypeError` exactly when the edges are empty. Otherwise it carries the edges unchanged, the first edge's cursor as `startCursor`, the last edge's as `endCursor`, and both flags as given |
| Forward.QueryLimit | index.js:186-196 | the forward LIMIT is always `first + 2`: line 186 leaves `after` truthy, so the `first + 1` branch never runs |
| Forward.AfterWindow | index.js:199-222 | at most `first` edges, at least one, lying within the rows after the anchor. It fails exactly when no row is left after the anchor or `first <= 0`. `hasPreviousPage` is true exactly when the first row is the `after` anchor. `hasNextPage` is true exactly when `first + 2` rows came, or `first + 1` rows without an anchor. The cursors are those of the first and last edge |
| Forward.AfterWindowIsFull | index.js:202-215 | the page is never cut short: the edges are the rows right after the anchor, in order, exactly `first` of them when `hasNextPage` is reported, and every remaining row otherwise |
| Forward.TrimAfter | index.js:185-223 | the splice-by-splice trim (replace a falsy `after`, test the anchor, drop the anchor or the surplus row, drop the row past `first`) yields exactly the `AfterWindow` page, including the failure on an empty answer |
| Forward.AfterAnchorStep | index.js:200-210 | an anchored answer loses its first row and reports a previous page. An unanchored full answer of `first + 2` rows loses its last row. Any other answer is kept as it came. Either way there is no previous page unless anchored, and the edges are a contiguous slice of the rows in their order |
| Forward.MissingAfterIsFirstPlusOne | index.js:186-215 | without `after`, the page is the first `min(first, n)` rows, `hasNextPage` is `n > first` and `hasPreviousPage` is false. The store's answer to `LIMIT first + 1` gives the same page |
| Forward.ForwardPagingExample | index.js:200-218 | twelve keys a01..a12 in pages of five: a01..a05 (next, no previous), a06..a10 after a05 (both), a11..a12 after a10 (previous only). The keys are zero-padded so that the store's string order is the order shown |
| Backward.PageSize | index.js:226 | a missing or zero `last` becomes 10, and a truthy one is kept. The size is never 0 |
| Backward.QueryLimit | index.js:236 | with a `before` cursor the backward LIMIT equals the forward LIMIT for the same page size: the page, the anchor and one row beyond. Without a cursor it is one row less, since no anchor can come back |
| Backward.BeforeWindow | index.js:239-265 | at most `last` edges, at least one. The edges reversed are a contiguous slice of the descending rows, which starts one row in when the last row matched `before`. `hasPreviousPage` is true exactly when more than `last` rows followed that skip. `hasNextPage` is true unless a `before` answer of `last + 2` rows had no match in its last row, so it is always true without `before`. The cursors are those of the first and last edge |
| Backward.BeforeWindowIsFull | index.js:243-258 | the page is never cut short: exactly `last` edges when `hasPreviousPage` is reported. Otherwise the edges, read in descending order, are every row after the skip |
| Backward.TrimBefore | index.js:225-266 | the splice-and-reverse trim, with the test on the last row and the removal of the first, yields exactly the `BeforeWindow` page |
| Backward.AsWrittenReturnsAnchor | index.js:243-258 | with unique keys, and the anchor at the top of a full answer, the code returns the anchor row itself as the last edge, and `hasNextPage` is false |
| Backward.AnchorQuirkExample | index.js:243-258 | keys b > a1 > a0, `last: 1`, `before: "b"`: the code gives page [b] with no next page. The corrected trim gives [a1] with a next page |
| Backward.NoBeforeExample | index.js:241-258 | the two greatest keys with `last: 5` and no `before`: the code reports a next page. The corrected trim reports none |
| Backward.BeforeWindowIntended | index.js:243-258 | corrected trim: at most `last` edges, and `hasNextPage` is true exactly when the first descending row is the `before` anchor |
| Backward.IntendedExcludesAnchor | index.js:243-246 | with unique keys, and the `before` anchor heading the answer, the corrected trim returns no edge whose cursor is the anchor |
| Backward.IntendedMirrorsForward | index.js:200-222 | the corrected backward trim equals the forward trim of the descending rows with edges reversed, cursors swapped and flags swapped |
| CursorQuery.Dispatch | index.js:168-181 | fails (NaN LIMIT) exactly when a truthy `after` comes without `first`. It pages forward exactly when `after` is truthy, or there is no `before` and (`first` truthy or `last` falsy). The cursor is `after` if truthy, else `before` if truthy, else none: `after` wins. The size is `first` with `after`, or with a truthy `first` and no cursor. Otherwise it is `last`, defaulting to 10 |
| CursorQuery.LimitRule | index.js:185-236 | the LIMIT is the page size plus 2 for every forward call and for a backward call with a cursor, and plus 1 for a backward call without one |
| CursorQuery.DefaultRequest | index.js:173-175 | a request with no argument pages forward by 10: `Routes` gives the first 10 fetched rows, a next page exactly when more came, no previous page |
| CursorQuery.Serve | index.js:168-181 | the plan's trim on the store's answer to the plan's LIMIT: it fails only with the empty-page `TypeError`, and a page holds from one edge up to the plan's size |
| CursorQuery.Routes | index.js:168-181 | the whole `cursorQueryAllByType` on the store's answer: it fails with `NaNLimit` exactly when `after` comes without `first`, and otherwise serves a page of at most the dispatched size |
| CursorQuery.NegativeFirstFails | index.js:169-170 | `{first: -5}` is passed on unchecked: it pages forward with LIMIT -3, and the empty answer fails with the `TypeError` |
| OffsetQuery.FloorDiv | index.js:291 | `Math.floor(a / b)`: `q*b <= a < q*b + b` for a positive divisor, mirrored for a negative one |
| OffsetQuery.CurrentPage | index.js:291 | page 1 at offset 0. For `limit > 0`, `(p-1)*limit <= offset < p*limit` |
| OffsetQuery.CeilDiv | index.js:292-293 | the ceiling of `a / b`: `q*b - b < a <= q*b` for a positive divisor |
| OffsetQuery.RemainderRoundsUp | index.js:292-293 | for every nonzero limit, the floor quotient plus one on a non-zero remainder equals the ceiling quotient |
| OffsetQuery.Metadata | index.js:288-303 | fails exactly when `limit == 0`, or when the total or a page number falls outside GraphQL's 32-bit `Int`. Otherwise `totalCount` is the total and `currentPage` is `CurrentPage`, with `(p-1)*limit <= offset < p*limit` for `limit > 0`. `pagesCount` is the ceiling of `total/limit`, covering the total with no page to spare. `hasNextPage` is `offset + limit < total` and `hasPreviousPage` is `offset > 0` |
| OffsetQuery.PageMetadata | index.js:288-303 | lines 291-302 step by step, with the floor quotient and the conditional `pagesCount++`, give exactly the `Metadata` result, errors included |
| OffsetQuery.InRangeRequestSucceeds | index.js:291-293 | a positive limit, any 32-bit offset below the largest `Int`, negative ones included, and a total that fits in 32 bits never fail: both page numbers fit |
| OffsetQuery.LargestOffsetOverflows | index.js:291 | `limit: 1` at offset 2^31 - 1 gives `currentPage` 2^31, which `Int` cannot carry, so the request fails |
| OffsetQuery.PagesCountIsCeiling | index.js:292-293 | for `limit > 0`: `pagesCount*limit >= total`, `(pagesCount-1)*limit < total` when `total > 0`, and 0 pages for 0 records |
| OffsetQuery.AlignedPageFlags | index.js:291-295 | at offset `k*limit` the page is `k+1`. `hasNextPage` holds exactly when it is not the last page. `hasPreviousPage` holds exactly past page 1 |
| OffsetQuery.TwentyFiveByTen | index.js:291-302 | 25 records, 10 per page: offsets 0/10/20 give the metadata of pages 1/2/3 of 3, with `hasNextPage` true/true/false and `hasPreviousPage` false/true/true |
| Fields.FlattenTopFields | index.js:166 | the names joined with `,`: "" for none, the name itself for one, and the total name length plus one comma between neighbours; it starts with the first name |
| Fields.SplitFlatten | index.js:276 | splitting the projection list of a non-empty list of names at its commas gives the names back in order, since field names carry no comma. An empty list joins to "", which splits into one empty piece |
| Fields.FlattenSplit | index.js:166 | joining the comma-separated pieces of any text gives the text back |

## Left out

- The Apollo schema, the resolver wiring and the server (index.js:1-143, 335-337). This is transport plumbing.
- The Couchbase connection, `getDoc`, `queryCluster`, `queryAllByType` and the `Route.airline` / `Route.sourceairport` resolvers (index.js:123-155, 307-331). These are network and database calls.
- The N1QL text and its string-built injection risk. The store is not modelled. Its answer is an input sequence of rows, and only the LIMIT is honoured, as `|rows| <= LIMIT`. So the WHERE bound, the ordering and the counting are not modelled. Nor are the properties that depend on them: paging until `hasNextPage` is false yields every record once, and reissuing a request gives the same page.
- `graphql-fields` introspection. Its top-level keys are an input sequence of names. A request that selects no `edges.node` or `nodes` makes `Object.keys` throw, and that is not modelled.
- Promises, `async` and `console.log`, which are effects with no logic in them. Store errors that reject the promise are absent too.
- Numbers: JavaScript numbers are doubles, and the model uses unbounded integers, which agree below 2^53. The unused `Float` geo fields are left out.
- The 32-bit range of the `limit`, `offset`, `first` and `last` arguments: GraphQL rejects an argument outside it before any resolver runs, and the model accepts any integer there.
- CursorQuery.Dispatch: an explicit `first: null` beside `after` is not told apart from a missing `first`. JavaScript computes `null + 2 == 2`, and the trim then ends in the `TypeError` of an empty page, `UndefinedRow`. The model reports `NaNLimit` for both.
- Node contents: they are a map from field name to string, and the trims never inspect them.
- The cursor encoding: keys are used as cursors unchanged, so there is no codec to model.
- Forward.TrimAfter: the model lets no key match the number 10 of line 186. JavaScript's `==` would coerce a key spelled as ten (`"10"`, `"1e1"`, `"0xA"`) and take the anchor branch. Keys of this bucket are `type_number` strings.

## Findings

| source | as written | input that shows it | evidently intended | confidence | as-written member | corrected member |
|---|---|---|---|---|---|---|
| index.js:244-246 | the backward anchor test reads the last descending row while the removal takes the first; the anchor `before` is the first row, so the test misses it, the anchor is returned as the page's last edge, and a full answer reports `hasNextPage: false` | rows b, a1, a0 (descending), `last: 1`, `before: "b"`: page [b], `hasNextPage` false | test the first row, drop it as the anchor, report a next page: page [a1], `hasNextPage` true | high, not executed | Backward.AsWrittenReturnsAnchor | Backward.BeforeWindowIntended |
| index.js:242 | `hasNextPage` starts true and stays true when there is no `before`, although the page then holds the greatest keys | rows a2, a1, `last: 5`, no `before`: `hasNextPage` true | false, mirroring the forward trim's `hasPreviousPage` without `after` | medium, not executed | Backward.NoBeforeExample | Backward.BeforeWindowIntended |
