# mongo_paginate in Dafny

A model of `paginate` from mod.ts, which does keyset (cursor-based)
pagination over a MongoDB collection. A caller asks for a page with a filter,
a limit, an optional projection, an optional cursor (the `_id` of the last
document of the previous page) and an optional sort order. `paginate` refuses
a non-positive limit. It resolves the order, ascending by default. When there
is a cursor, it bounds `_id` strictly beyond it in the caller's filter: `$gt`
when ascending, `$lt` when descending. It then calls `collection.find` with
that filter, the limit, the projection and a sort on `_id` in the resolved
order.

Modules:

- `Wrappers` (wrappers.dfy): `Option` for the optional fields, and `Result`
  for the thrown error.
- `Paginate` (paginate.dfy): the model of mod.ts. The `SortOrder` enum, the
  filter entries (`Caller` conditions are opaque; `Gt`/`Lt` are the two
  `_id` bounds), the request and the query. `PaginateQuery` is the pure
  function from a request value to the query. `Paginate` is the operation
  as written: the caller's filter is an object (`FilterObject`), and
  `paginate` writes `_id` into that object and passes the same object to
  `find`. Its contract ties it to `PaginateQuery`.
- `Find` (find.dfy): an abstract store that stands in for `collection.find`.
  It keeps the stored documents that match the filter, sorts them on `_id`
  in the sort spec's direction (insertion sort), and takes `limit`.
- `Keyset` (keyset.dfy): keyset correctness over a store with unique ids.
  A page is bounded and strictly ordered. The next page, asked for with the
  last id as cursor, lies strictly beyond it and shares no document with it,
  even when the store changed between the two calls; on an unchanged store
  it skips none. The worked walks over ids 1 to 5 are proved as lemmas.

mod.ts:30-32 writes the cursor bound into the caller's own filter object,
and `Paginate.Paginate` models that write (see `## Findings`).

## Model

| member | source | states |
|---|---|---|
| `Paginate.SortOrder.Code` | mod.ts:5-8 | `ASCENDING` is 1 and `DESCENDING` is -1; the code is always ±1 and is 1 exactly for ascending |
| `Paginate.ResolveOrder` | mod.ts:28 | the order is the given one, or `ASCENDING` when none is given |
| `Paginate.CursorBound` | mod.ts:32-34 | the cursor bound is `$gt` on the cursor exactly when the order is ascending, and `$lt` exactly when descending |
| `Paginate.CursorFilter` | mod.ts:30-35 | with no cursor the filter is the caller's, unchanged; with a cursor only `_id` is added or overwritten, it holds the cursor bound, and every other key keeps its value |
| `Paginate.PaginateQuery` | mod.ts:23-42 | fails with "Limit must be greater than 0" exactly when `limit <= 0`; otherwise no-cursor filter equals the caller's, cursor filter differs only at `_id`, which holds the bound; limit and projection pass unchanged; sort is `{ _id: order }` with the resolved order |
| `Paginate.Paginate` | mod.ts:23-42 | throws exactly when `limit <= 0` and then touches nothing; changes no key of the caller's filter object but `_id`, and none without a cursor; calls `find` on the same collection with the SAME filter object, whose new contents and options are `PaginateQuery` of the old request |
| `Paginate.StaleBoundOnReuse` | mod.ts:30-35 | a filter object used once with a cursor and then without one makes the second call's filter keep `_id: { $gt: cursor }`, which is not the caller's filter |
| `Find.BeforeBySignedCode` | mod.ts:40 | sorting on `_id` in direction `order` puts `a` before `b` exactly when `code * a < code * b` |
| `Find.CursorBoundMeansAfter` | mod.ts:32-34 | a document passes the bound a cursor puts on `_id` exactly when it sorts strictly after the cursor in that order: comparison and sort agree |
| `Find.Select` | mod.ts:37 | the store keeps exactly the stored documents that match the filter, and keeps ids distinct |
| `Find.Insert` | mod.ts:40 | inserting a document into the sorted sequence adds exactly that document |
| `Find.InsertOrdered` | mod.ts:40 | inserting a document with a new id into a strictly ordered sequence keeps it strictly ordered |
| `Find.SortById` | mod.ts:40 | the sort on `_id` is a permutation of its input |
| `Find.SortStrictlyOrdered` | mod.ts:40 | on distinct ids the sort's result is strictly increasing (ascending) or strictly decreasing (descending) |
| `Find.OrderedUnique` | mod.ts:40 | two strictly ordered sequences of the same documents are equal, so the sorted result does not depend on stored order |
| `Find.Take` | mod.ts:38 | the limit keeps a prefix of at most `limit` documents, all of them when fewer are there |
| `Find.Run` | mod.ts:37-41 | every returned document is stored and matches the filter, and there are at most `limit` |
| `Keyset.PageIsPrefix` | mod.ts:37-41 | a page is the first `limit` of the matching documents sorted on `_id` in the resolved order |
| `Keyset.PageBounded` | mod.ts:31-38 | a page holds at most `limit` stored documents, each meets the caller's non-`_id` conditions and, with a cursor, sorts strictly after it |
| `Keyset.PageOrdered` | mod.ts:40 | on distinct ids a page is strictly increasing (ascending) or strictly decreasing (descending) in `_id` |
| `Keyset.NextPageDisjoint` | mod.ts:31-40 | the page requested with this page's last id as cursor lies strictly beyond the cursor and beyond every document of this page, so the two share nothing, even when documents were inserted or deleted between the two calls |
| `Keyset.NextBeyondCursor` | mod.ts:31-34 | every document of the page requested with a cursor sorts strictly after that cursor |
| `Keyset.AfterLast` | mod.ts:40 | a document that sorts after the last of a strictly ordered page sorts after every document of it |
| `Keyset.PrefixBefore` | mod.ts:38-40 | a document of a strictly ordered sequence that the limit cuts off sorts after everything kept, and exactly `limit` are kept |
| `Keyset.CandidateWhenMatching` | mod.ts:30-37 | a stored document that meets the caller's filter and lies beyond the cursor is among the documents the query selects |
| `Keyset.PageSkipsNothing` | mod.ts:31-40 | a matching document beyond the cursor that is missing from the page sorts after all of the page, and the page is full |
| `Keyset.CandidatesInOrder` | mod.ts:30-40 | the sorted candidates are strictly ordered and are exactly the stored documents that match the cursor filter |
| `Keyset.PageOfListed` | mod.ts:37-41 | a page is the first `limit` of any strictly ordered listing of the documents that match the cursor filter |
| `Keyset.WalkMatches` | mod.ts:31-34 | with an empty caller filter a document matches exactly when it is beyond the cursor, or always without a cursor |
| `Keyset.AscendingFirstPage` | mod.ts:23-42 | ids 1..5, limit 2, no cursor: the page is {1, 2} |
| `Keyset.AscendingSecondPage` | mod.ts:23-42 | ids 1..5, limit 2, cursor 2: the page is {3, 4} |
| `Keyset.AscendingLastPage` | mod.ts:23-42 | ids 1..5, limit 2, cursor 4: the page is {5} |
| `Keyset.DescendingFirstPage` | mod.ts:23-42 | ids 1..5 descending, limit 2, no cursor: the page is {5, 4} |
| `Keyset.DescendingSecondPage` | mod.ts:23-42 | ids 1..5 descending, limit 2, cursor 4: the page is {3, 2} |
| `Keyset.ZeroLimitRefused` | mod.ts:24-26 | a limit of 0 fails with "Limit must be greater than 0" |

## Findings

| source | as written | input that shows it | evidently intended | confidence | as-written member | corrected member |
|---|---|---|---|---|---|---|
| mod.ts:30-32 | `filter` is the caller's own `options.filter` object, and the cursor bound is assigned into it | one filter object `F` with no `_id`; call with cursor `c` (ascending), then call again with `F` and no cursor: the second `find` receives `F` with `_id: { $gt: c }` | the caller's filter is left as given, since its declared type `Omit<Filter<T>, "_id">` has no `_id`, so a call without a cursor returns a first page | medium; not executed | `Paginate.StaleBoundOnReuse` | `Paginate.PaginateQuery` |

`Paginate.Paginate` keeps the as-written behaviour. The keyset lemmas are
stated over `Paginate.PaginateQuery`, which builds a new filter value.

## Left out

- The driver's `find`: the MongoDB client, network I/O, and the lazy result
  cursor that `paginate` returns. `Paginate.Paginate` returns a description
  of the call it makes (`FindCall`). `Find.Run` is an abstract stand-in for
  the store, used only to state keyset correctness.
- Errors raised by `find` itself (connection failures, malformed filters).
  They pass through `paginate` unchanged and are not modelled.
- The collection handle, `ObjectId` internals and serialisation. Ids are
  `int`, ordered like the `_id` index.
- JavaScript number quirks in `options.limit <= 0` (fractions, `NaN`). The
  limit is an `int`.
- The truthiness test on `options.cursor`. The cursor is an `Option`.
- TypeScript's type-level machinery (`Omit`, the `Document` shape). The
  projection is an opaque value that passes through. The store ignores it,
  because it shapes documents and does not select them.
- The meaning of the caller's filter conditions. The store judges them
  through an opaque parameter `sat`.
- Range bounds under other keys: the store compares `$gt`/`$lt` bounds with `_id` whatever key they sit
  under, because `paginate` only puts them under `_id`.
- Non-positive limits at the store: `Find.Take` reads a non-positive limit as "no limit", as MongoDB does for
  0. MongoDB's single-batch meaning of a negative limit is not modelled,
  because `paginate` never sends one.
- A caller filter holding `_id`: `Keyset.PageSkipsNothing` requires the
  caller's filter to have no `_id` key, as its declared type says.
