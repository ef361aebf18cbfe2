/**
 * The paginator of mod.ts: it turns a page request into the call it makes on
 * the collection, `find(filter, { limit, projection, sort })`.
 *
 * Two views of the same operation are given. `PaginateQuery` is the pure
 * function from a request value to the query value. `Paginate` is the
 * operation as written: it takes the caller's filter OBJECT, writes the cursor
 * bound into that very object, and hands the same object on to `find`.
 * `Paginate`'s contract ties it to `PaginateQuery`.
 */
module Paginate {
  import opened Wrappers

  /** A document identifier (an ObjectId), modelled by its place in the
      total order the `_id` index sorts by. */
  type Id = int

  /** The identifier field, which the paginator owns. */
  const IdField: string := "_id"

  /** The `SortOrder` enum; `Code` is the number each member stands for,
      which is the direction the sort spec hands to the store. */
  datatype SortOrder = Ascending | Descending {
    function Code(): (r: int)
      ensures r == 1 || r == -1
      ensures r == 1 <==> this == Ascending
    {
      match this
      case Ascending => 1
      case Descending => -1
    }
  }

  /** One entry of a filter: a condition of the caller's (opaque to the
      paginator), or one of the two range bounds the paginator writes under
      `_id`: `{ $gt: id }` and `{ $lt: id }`. */
  datatype Condition<V> = Caller(cond: V) | Gt(after: Id) | Lt(before: Id)

  /** A filter document: field name to condition. */
  type Filter<V> = map<string, Condition<V>>

  /** The one error the paginator raises itself. */
  datatype Error = Error(message: string)

  const InvalidLimit: Error := Error("Limit must be greater than 0")

  /** The second argument of `find`: `{ limit, projection, sort }`. */
  datatype FindOptions<P> = FindOptions(limit: int, projection: Option<P>, sort: map<string, SortOrder>)

  /** A page request, with the filter as a value (the fields of
      `PaginateOptions` other than the collection handle). */
  datatype Request<V, P> = Request(
    filter: Filter<V>,
    limit: int,
    projection: Option<P>,
    cursor: Option<Id>,
    order: Option<SortOrder>)

  /** What `find` receives: the effective filter and the find options. */
  datatype Query<V, P> = Query(filter: Filter<V>, options: FindOptions<P>)

  /** The order in force: the given one, ascending when none is given. */
  function ResolveOrder(order: Option<SortOrder>): (r: SortOrder)
    ensures order.None? ==> r == Ascending
    ensures order.Some? ==> r == order.value
  {
    order.GetOr(Ascending)
  }

  /** The bound a cursor puts on `_id`: strictly after the cursor in the
      given order, `$gt` when ascending and `$lt` when descending. */
  function CursorBound<V>(order: SortOrder, cursor: Id): (r: Condition<V>)
    ensures r.Gt? <==> order == Ascending
    ensures r.Lt? <==> order == Descending
    ensures r.Gt? ==> r.after == cursor
    ensures r.Lt? ==> r.before == cursor
  {
    match order
    case Ascending => Gt(cursor)
    case Descending => Lt(cursor)
  }

  /** The filter handed to `find`, as a new value: the caller's filter with
      `_id` set to the cursor bound when there is a cursor. Every other key
      keeps its value, and no key is added but `_id`. */
  function CursorFilter<V>(filter: Filter<V>, cursor: Option<Id>, order: SortOrder): (r: Filter<V>)
    ensures cursor.None? ==> r == filter
    ensures cursor.Some? ==> IdField in r && r[IdField] == CursorBound(order, cursor.value)
    ensures r.Keys == if cursor.Some? then filter.Keys + {IdField} else filter.Keys
    ensures forall k :: k in filter && k != IdField ==> r[k] == filter[k]
  {
    if cursor.Some? then filter[IdField := CursorBound(order, cursor.value)] else filter
  }

  /** `paginate` as a function of the request: it fails on a non-positive
      limit; otherwise the query's filter is the caller's with `_id` bounded
      by the cursor when there is one (and untouched when there is none),
      the limit and projection pass unchanged, and the sort is on `_id`
      alone in the resolved order, the same direction as the bound. The
      caller's filter is a value here, so nothing the caller holds changes. */
  function PaginateQuery<V, P>(req: Request<V, P>): (r: Result<Query<V, P>, Error>)
    ensures r.Failure? <==> req.limit <= 0
    ensures r.Failure? ==> r.error == InvalidLimit
    ensures r.Success? && req.cursor.None? ==> r.value.filter == req.filter
    ensures r.Success? && req.cursor.Some? ==>
      && r.value.filter.Keys == req.filter.Keys + {IdField}
      && r.value.filter[IdField] == CursorBound(ResolveOrder(req.order), req.cursor.value)
    ensures r.Success? ==> forall k :: k in req.filter && k != IdField ==> r.value.filter[k] == req.filter[k]
    ensures r.Success? ==> r.value.options.limit == req.limit && r.value.options.projection == req.projection
    ensures r.Success? ==> r.value.options.sort.Keys == {IdField}
    ensures r.Success? ==> r.value.options.sort[IdField] == ResolveOrder(req.order)
  {
    if req.limit <= 0 then
      Failure(InvalidLimit)
    else
      var order := ResolveOrder(req.order);
      Success(Query(
        CursorFilter(req.filter, req.cursor, order),
        FindOptions(req.limit, req.projection, map[IdField := order])))
  }

  /** The caller's filter object. `paginate` does not copy it: it writes the
      cursor bound into it and passes the same object to `find`. */
  class FilterObject<V> {
    var entries: Filter<V>

    constructor (entries: Filter<V>)
      ensures this.entries == entries
    {
      this.entries := entries;
    }
  }

  /** `PaginateOptions`: the collection handle (opaque) and the request, with
      the filter as an object reference. */
  datatype PaginateOptions<C, V, P> = PaginateOptions(
    collection: C,
    filter: FilterObject<V>,
    limit: int,
    projection: Option<P>,
    cursor: Option<Id>,
    order: Option<SortOrder>)

  /** The call `collection.find(filter, options)` that `paginate` makes and
      whose result it returns. */
  datatype FindCall<C, V, P> = FindCall(collection: C, filter: FilterObject<V>, options: FindOptions<P>)

  /** The request value an options object stands for in the current state. */
  function RequestOf<C, V, P>(options: PaginateOptions<C, V, P>): Request<V, P>
    reads options.filter
  {
    Request(options.filter.entries, options.limit, options.projection, options.cursor, options.order)
  }

  /** `paginate` as written. On a non-positive limit it throws before
      anything is touched. Otherwise it may overwrite `_id` in the caller's
      filter object (only that key), and the call it makes on the collection
      carries that same object, whose new contents are the cursor filter. */
  method Paginate<C, V, P>(options: PaginateOptions<C, V, P>) returns (r: Result<FindCall<C, V, P>, Error>)
    modifies options.filter
    ensures r.Failure? <==> options.limit <= 0
    ensures r.Failure? ==> r.error == InvalidLimit && options.filter.entries == old(options.filter.entries)
    ensures options.cursor.None? ==> options.filter.entries == old(options.filter.entries)
    ensures options.filter.entries - {IdField} == old(options.filter.entries) - {IdField}
    ensures r.Success? ==> r.value.collection == options.collection && r.value.filter == options.filter
    ensures r.Success? ==>
      PaginateQuery(old(RequestOf(options))) == Success(Query(options.filter.entries, r.value.options))
  {
    if options.limit <= 0 {
      return Failure(InvalidLimit);
    }
    var order := ResolveOrder(options.order);
    var filter := options.filter;
    if options.cursor.Some? {
      filter.entries := filter.entries[IdField := CursorBound(order, options.cursor.value)];
    }
    r := Success(FindCall(options.collection, filter, FindOptions(options.limit, options.projection, map[IdField := order])));
  }

  /** Reusing a filter object: after a call with a cursor, a later call
      WITHOUT a cursor on the same object still hands `find` the stale `_id`
      bound, so it does not return a first page. */
  method StaleBoundOnReuse<C, V, P>(collection: C, callerFilter: Filter<V>, cursor: Id, limit: int)
    returns (seen: Filter<V>)
    requires limit > 0
    requires IdField !in callerFilter
    ensures seen == callerFilter[IdField := Gt(cursor)]
    ensures seen != PaginateQuery<V, P>(Request(callerFilter, limit, None, None, None)).value.filter
  {
    var filter := new FilterObject(callerFilter);
    var withCursor: PaginateOptions<C, V, P> := PaginateOptions(collection, filter, limit, None, Some(cursor), None);
    var first := Paginate(withCursor);
    var withoutCursor: PaginateOptions<C, V, P> := PaginateOptions(collection, filter, limit, None, None, None);
    var second := Paginate(withoutCursor);
    seen := second.value.filter.entries;
    assert IdField in seen && seen[IdField] == Gt(cursor);
  }
}
