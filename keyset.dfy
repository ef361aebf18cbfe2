/**
 * Keyset pagination is correct: run against a store with unique
 * identifiers, the query `paginate` builds returns a bounded, strictly
 * ordered page, and the page requested with the last identifier as cursor
 * (same filter, same order) starts strictly after it, skips nothing and
 * repeats nothing.
 */
module Keyset {
  import opened Wrappers
  import opened Paginate
  import opened Find

  /** The page a valid request returns: the query of `PaginateQuery`, run. */
  function Page<D(!new), V, P>(sat: (D, string, V) -> bool, docs: seq<Doc<D>>, req: Request<V, P>): seq<Doc<D>>
    requires req.limit > 0
  {
    Run(sat, docs, PaginateQuery(req).value)
  }

  /** The documents the query can return, sorted: the page is the first
      `limit` of them. */
  function Candidates<D(!new), V, P>(sat: (D, string, V) -> bool, docs: seq<Doc<D>>, req: Request<V, P>): seq<Doc<D>> {
    var order := ResolveOrder(req.order);
    SortById(order, Select(sat, docs, CursorFilter(req.filter, req.cursor, order)))
  }

  lemma PageIsPrefix<D(!new), V, P>(sat: (D, string, V) -> bool, docs: seq<Doc<D>>, req: Request<V, P>)
    requires req.limit > 0
    ensures Page(sat, docs, req) == Take(Candidates(sat, docs, req), req.limit)
  {
    assert SortDirection(PaginateQuery(req).value.options.sort) == Some(ResolveOrder(req.order));
  }

  /** The request for the next page: same filter, limit, projection and
      order, with `cursor` as the cursor. */
  function NextRequest<V, P>(req: Request<V, P>, cursor: Id): Request<V, P> {
    req.(cursor := Some(cursor))
  }

  /** A page holds at most `limit` stored documents; each meets every
      condition of the caller's filter other than `_id`, and when there is
      a cursor, each sorts strictly after it. */
  lemma PageBounded<D(!new), V, P>(sat: (D, string, V) -> bool, docs: seq<Doc<D>>, req: Request<V, P>)
    requires req.limit > 0
    ensures var page := Page(sat, docs, req);
      && |page| <= req.limit
      && (forall d :: d in page ==> d in docs)
      && (forall d, k :: d in page && k in req.filter && k != IdField ==> Holds(sat, d, k, req.filter[k]))
      && (forall d :: d in page && req.cursor.Some? ==> Before(ResolveOrder(req.order), req.cursor.value, d.id))
  {
    var page := Page(sat, docs, req);
    var order := ResolveOrder(req.order);
    var filter := CursorFilter(req.filter, req.cursor, order);
    forall d | d in page && req.cursor.Some?
      ensures Before(order, req.cursor.value, d.id)
    {
      assert Holds(sat, d, IdField, filter[IdField]);
      CursorBoundMeansAfter(sat, d, order, req.cursor.value);
    }
    forall d, k | d in page && k in req.filter && k != IdField
      ensures Holds(sat, d, k, req.filter[k])
    {
      assert Holds(sat, d, k, filter[k]);
    }
  }

  /** On distinct identifiers a page is in strictly increasing (ascending)
      or strictly decreasing (descending) `_id` order. */
  lemma {:induction false} PageOrdered<D(!new), V, P>(sat: (D, string, V) -> bool, docs: seq<Doc<D>>, req: Request<V, P>)
    requires req.limit > 0
    requires DistinctIds(docs)
    ensures StrictlyOrdered(ResolveOrder(req.order), Page(sat, docs, req))
  {
    var order := ResolveOrder(req.order);
    SortStrictlyOrdered(order, Select(sat, docs, CursorFilter(req.filter, req.cursor, order)));
    PageIsPrefix(sat, docs, req);
  }

  /** The next page, requested with the last identifier of this page as
      cursor, lies strictly beyond this page: every document on it sorts
      after every document here, so the two pages share no document. This
      holds even when the store changed between the two calls (`docs'`):
      the boundary is a comparison on `_id`, not a position. */
  lemma {:induction false} NextPageDisjoint<D(!new), V, P>(
    sat: (D, string, V) -> bool, docs: seq<Doc<D>>, docs': seq<Doc<D>>, req: Request<V, P>,
    page: seq<Doc<D>>, next: seq<Doc<D>>)
    requires req.limit > 0
    requires DistinctIds(docs)
    requires page == Page(sat, docs, req) && page != []
    requires next == Page(sat, docs', NextRequest(req, page[|page| - 1].id))
    ensures forall e :: e in next ==> Before(ResolveOrder(req.order), page[|page| - 1].id, e.id)
    ensures forall d, e :: d in page && e in next ==> Before(ResolveOrder(req.order), d.id, e.id)
    ensures forall d :: d in page ==> d !in next
  {
    var order := ResolveOrder(req.order);
    PageOrdered(sat, docs, req);
    NextBeyondCursor(sat, docs', req, page[|page| - 1].id);
    AfterLast(order, page, next);
    assert forall d :: d in page ==> d !in next by {
      forall d | d in page && d in next
        ensures Before(order, d.id, d.id)
      {
      }
    }
  }

  /** Every document of the page requested with `cursor` sorts after it. */
  lemma NextBeyondCursor<D(!new), V, P>(sat: (D, string, V) -> bool, docs: seq<Doc<D>>, req: Request<V, P>, cursor: Id)
    requires req.limit > 0
    ensures forall e :: e in Page(sat, docs, NextRequest(req, cursor)) ==> Before(ResolveOrder(req.order), cursor, e.id)
  {
    PageBounded(sat, docs, NextRequest(req, cursor));
  }

  /** Documents that sort after the last of a strictly ordered page sort
      after all of it. */
  lemma AfterLast<D>(o: SortOrder, page: seq<Doc<D>>, next: seq<Doc<D>>)
    requires StrictlyOrdered(o, page) && page != []
    requires forall e :: e in next ==> Before(o, page[|page| - 1].id, e.id)
    ensures forall d, e :: d in page && e in next ==> Before(o, d.id, e.id)
  {
    forall d, e | d in page && e in next
      ensures Before(o, d.id, e.id)
    {
      var i :| 0 <= i < |page| && page[i] == d;
      assert i == |page| - 1 || Before(o, d.id, page[|page| - 1].id);
    }
  }

  /** A document that is in a strictly ordered sequence but not among its
      first `n` sorts after all of them, and there are `n` of them. */
  lemma PrefixBefore<D>(o: SortOrder, s: seq<Doc<D>>, n: int, x: Doc<D>)
    requires StrictlyOrdered(o, s)
    requires x in s && x !in Take(s, n)
    ensures |Take(s, n)| == n
    ensures forall e :: e in Take(s, n) ==> Before(o, e.id, x.id)
  {
    var prefix := Take(s, n);
    var j :| 0 <= j < |s| && s[j] == x;
    assert x !in s[..|prefix|];
    forall e | e in prefix
      ensures Before(o, e.id, x.id)
    {
      var i :| 0 <= i < |prefix| && prefix[i] == e;
      assert s[i] == e;
    }
  }

  /** A stored document that matches the caller's filter (which has no
      `_id` entry) and lies beyond the cursor is one of the candidates. */
  lemma CandidateWhenMatching<D(!new), V, P>(sat: (D, string, V) -> bool, docs: seq<Doc<D>>, req: Request<V, P>, d: Doc<D>)
    requires IdField !in req.filter
    requires d in docs && Matches(sat, d, req.filter)
    requires req.cursor.Some? ==> Before(ResolveOrder(req.order), req.cursor.value, d.id)
    ensures d in Candidates(sat, docs, req)
  {
    var order := ResolveOrder(req.order);
    var filter := CursorFilter(req.filter, req.cursor, order);
    forall k | k in filter
      ensures Holds(sat, d, k, filter[k])
    {
      if k == IdField {
        CursorBoundMeansAfter(sat, d, order, req.cursor.value);
      }
    }
    assert d in Select(sat, docs, filter);
    assert d in multiset(Candidates(sat, docs, req));
  }

  /** Nothing is skipped: a stored document that matches the caller's
      filter and lies beyond the cursor (any such document, on a first
      page) but is not on the page sorts after every document on it, and
      the page is then full. With `NextPageDisjoint`, consecutive pages are
      the matching documents in order, `limit` at a time. */
  lemma {:induction false} PageSkipsNothing<D(!new), V, P>(sat: (D, string, V) -> bool, docs: seq<Doc<D>>, req: Request<V, P>, d: Doc<D>)
    requires req.limit > 0
    requires DistinctIds(docs)
    requires IdField !in req.filter
    requires d in docs && Matches(sat, d, req.filter)
    requires req.cursor.Some? ==> Before(ResolveOrder(req.order), req.cursor.value, d.id)
    requires d !in Page(sat, docs, req)
    ensures |Page(sat, docs, req)| == req.limit
    ensures forall e :: e in Page(sat, docs, req) ==> Before(ResolveOrder(req.order), e.id, d.id)
  {
    var order := ResolveOrder(req.order);
    CandidateWhenMatching(sat, docs, req, d);
    SortStrictlyOrdered(order, Select(sat, docs, CursorFilter(req.filter, req.cursor, order)));
    PageIsPrefix(sat, docs, req);
    PrefixBefore(order, Candidates(sat, docs, req), req.limit, d);
  }

  /** On distinct identifiers the candidates are strictly ordered and are
      exactly the stored documents the cursor filter matches. */
  lemma CandidatesInOrder<D(!new), V, P>(sat: (D, string, V) -> bool, docs: seq<Doc<D>>, req: Request<V, P>)
    requires DistinctIds(docs)
    ensures var order := ResolveOrder(req.order);
      var filter := CursorFilter(req.filter, req.cursor, order);
      && StrictlyOrdered(order, Candidates(sat, docs, req))
      && forall x :: x in Candidates(sat, docs, req) <==> x in docs && Matches(sat, x, filter)
  {
    var order := ResolveOrder(req.order);
    var selected := Select(sat, docs, CursorFilter(req.filter, req.cursor, order));
    SortStrictlyOrdered(order, selected);
    forall x
      ensures x in Candidates(sat, docs, req) <==> x in selected
    {
      assert x in Candidates(sat, docs, req) <==> x in multiset(Candidates(sat, docs, req));
    }
  }

  /** The page of a request is the first `limit` of `expected` when
      `expected` lists, in order, the documents the cursor filter matches. */
  lemma PageOfListed<D(!new), V, P>(sat: (D, string, V) -> bool, docs: seq<Doc<D>>, req: Request<V, P>, expected: seq<Doc<D>>)
    requires req.limit > 0
    requires DistinctIds(docs)
    requires StrictlyOrdered(ResolveOrder(req.order), expected)
    requires forall x :: x in expected <==>
      x in docs && Matches(sat, x, CursorFilter(req.filter, req.cursor, ResolveOrder(req.order)))
    ensures Page(sat, docs, req) == Take(expected, req.limit)
  {
    CandidatesInOrder(sat, docs, req);
    OrderedUnique(ResolveOrder(req.order), Candidates(sat, docs, req), expected);
    PageIsPrefix(sat, docs, req);
  }

  /** A stored document type with no fields besides `_id`, and a caller
      condition that every document meets. */
  predicate AnyDoc(data: (), key: string, cond: ()) {
    true
  }

  /** Five stored documents with identifiers 1 to 5. */
  function Store(): seq<Doc<()>> {
    [Doc(3, ()), Doc(1, ()), Doc(5, ()), Doc(2, ()), Doc(4, ())]
  }

  /** A request with an empty (match-all) filter. */
  function Walk(limit: int, cursor: Option<Id>, order: Option<SortOrder>): Request<(), ()> {
    Request(map[], limit, None, cursor, order)
  }

  lemma StoreDistinct()
    ensures DistinctIds(Store())
  {
  }

  /** With an empty caller filter, a document matches the cursor filter
      exactly when it lies beyond the cursor (every document, without one). */
  lemma WalkMatches(cursor: Option<Id>, order: SortOrder, x: Doc<()>)
    ensures Matches(AnyDoc, x, CursorFilter<()>(map[], cursor, order)) <==>
      (cursor.Some? ==> Before(order, cursor.value, x.id))
  {
    if cursor.Some? {
      assert CursorFilter<()>(map[], cursor, order) == map[IdField := CursorBound(order, cursor.value)];
      CursorBoundMeansAfter(AnyDoc, x, order, cursor.value);
    }
  }

  /** Ascending, pages of two: {1, 2} first. */
  lemma AscendingFirstPage()
    ensures Page(AnyDoc, Store(), Walk(2, None, None)) == [Doc(1, ()), Doc(2, ())]
  {
    var all := [Doc(1, ()), Doc(2, ()), Doc(3, ()), Doc(4, ()), Doc(5, ())];
    StoreDistinct();
    forall x ensures x in all <==> x in Store() && Matches(AnyDoc, x, CursorFilter<()>(map[], None, Ascending)) {
      WalkMatches(None, Ascending, x);
    }
    PageOfListed(AnyDoc, Store(), Walk(2, None, None), all);
  }

  /** Ascending, after cursor 2: {3, 4}. */
  lemma AscendingSecondPage()
    ensures Page(AnyDoc, Store(), Walk(2, Some(2), None)) == [Doc(3, ()), Doc(4, ())]
  {
    var rest := [Doc(3, ()), Doc(4, ()), Doc(5, ())];
    StoreDistinct();
    forall x ensures x in rest <==> x in Store() && Matches(AnyDoc, x, CursorFilter<()>(map[], Some(2), Ascending)) {
      WalkMatches(Some(2), Ascending, x);
    }
    PageOfListed(AnyDoc, Store(), Walk(2, Some(2), None), rest);
  }

  /** Ascending, after cursor 4: {5}. */
  lemma AscendingLastPage()
    ensures Page(AnyDoc, Store(), Walk(2, Some(4), None)) == [Doc(5, ())]
  {
    var rest := [Doc(5, ())];
    StoreDistinct();
    forall x ensures x in rest <==> x in Store() && Matches(AnyDoc, x, CursorFilter<()>(map[], Some(4), Ascending)) {
      WalkMatches(Some(4), Ascending, x);
    }
    PageOfListed(AnyDoc, Store(), Walk(2, Some(4), None), rest);
  }

  /** Descending, pages of two: {5, 4} first. */
  lemma DescendingFirstPage()
    ensures Page(AnyDoc, Store(), Walk(2, None, Some(Descending))) == [Doc(5, ()), Doc(4, ())]
  {
    var all := [Doc(5, ()), Doc(4, ()), Doc(3, ()), Doc(2, ()), Doc(1, ())];
    StoreDistinct();
    forall x ensures x in all <==> x in Store() && Matches(AnyDoc, x, CursorFilter<()>(map[], None, Descending)) {
      WalkMatches(None, Descending, x);
    }
    PageOfListed(AnyDoc, Store(), Walk(2, None, Some(Descending)), all);
  }

  /** Descending, after cursor 4: {3, 2}. */
  lemma DescendingSecondPage()
    ensures Page(AnyDoc, Store(), Walk(2, Some(4), Some(Descending))) == [Doc(3, ()), Doc(2, ())]
  {
    var rest := [Doc(3, ()), Doc(2, ()), Doc(1, ())];
    StoreDistinct();
    forall x ensures x in rest <==> x in Store() && Matches(AnyDoc, x, CursorFilter<()>(map[], Some(4), Descending)) {
      WalkMatches(Some(4), Descending, x);
    }
    PageOfListed(AnyDoc, Store(), Walk(2, Some(4), Some(Descending)), rest);
  }

  /** A limit of 0 is refused before any query is built. */
  lemma ZeroLimitRefused()
    ensures PaginateQuery(Walk(0, None, None)) == Failure(InvalidLimit)
  {
  }
}
