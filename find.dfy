/**
 * An abstract store that runs the query `paginate` hands to
 * `collection.find`: keep the documents the filter matches, sort them on
 * `_id` in the direction of the sort spec, and take the first `limit`.
 * It stands in for the database driver so that what the query returns can be
 * stated; the driver itself is not part of this model.
 */
module Find {
  import opened Wrappers
  import opened Paginate

  /** A stored document: its identifier and the rest of its fields (opaque). */
  datatype Doc<D> = Doc(id: Id, data: D)

  /** `a` comes strictly before `b` when sorting on `_id` in order `o`. */
  predicate Before(o: SortOrder, a: Id, b: Id) {
    match o
    case Ascending => a < b
    case Descending => a > b
  }

  /** A sort direction of +1 or -1 orders by the identifier times the
      direction, which is what the enum's numbers mean to the store. The
      store here reads the `SortOrder` itself rather than its number; this
      lemma is what connects `Before` to the encoding the enum declares. */
  lemma BeforeBySignedCode(o: SortOrder, a: Id, b: Id)
    ensures Before(o, a, b) <==> o.Code() * a < o.Code() * b
  {
  }

  /** No two documents share an identifier (`_id` is unique in a collection). */
  predicate DistinctIds<D>(s: seq<Doc<D>>) {
    forall i, j :: 0 <= i < j < |s| ==> s[i].id != s[j].id
  }

  /** Strictly increasing (ascending) or strictly decreasing (descending)
      identifiers. */
  predicate StrictlyOrdered<D>(o: SortOrder, s: seq<Doc<D>>) {
    forall i, j :: 0 <= i < j < |s| ==> Before(o, s[i].id, s[j].id)
  }

  /** Whether document `d` meets the condition `c` filed under `key`. The
      caller's conditions are judged by `sat`; the range bounds compare `_id`. */
  predicate Holds<D, V>(sat: (D, string, V) -> bool, d: Doc<D>, key: string, c: Condition<V>) {
    match c
    case Caller(v) => sat(d.data, key, v)
    case Gt(after) => d.id > after
    case Lt(before) => d.id < before
  }

  /** A document matches a filter when it meets every entry. */
  predicate Matches<D, V>(sat: (D, string, V) -> bool, d: Doc<D>, filter: Filter<V>) {
    forall k :: k in filter ==> Holds(sat, d, k, filter[k])
  }

  /** The cursor bound and the sort agree: a document passes the bound that
      cursor `c` puts on `_id` exactly when it sorts strictly after `c`. */
  lemma CursorBoundMeansAfter<D, V>(sat: (D, string, V) -> bool, d: Doc<D>, o: SortOrder, c: Id)
    ensures Holds(sat, d, IdField, CursorBound<V>(o, c)) <==> Before(o, c, d.id)
  {
  }

  /** The documents the filter matches, in stored order. */
  function Select<D(!new), V>(sat: (D, string, V) -> bool, docs: seq<Doc<D>>, filter: Filter<V>): (r: seq<Doc<D>>)
    ensures forall d :: d in r <==> d in docs && Matches(sat, d, filter)
    ensures DistinctIds(docs) ==> DistinctIds(r)
  {
    if docs == [] then []
    else
      var rest := Select(sat, docs[1..], filter);
      if Matches(sat, docs[0], filter) then
        assert DistinctIds(docs) ==> forall d :: d in rest ==> d.id != docs[0].id by {
          if DistinctIds(docs) {
            forall d | d in rest ensures d.id != docs[0].id {
              var j :| 0 <= j < |docs[1..]| && docs[1..][j] == d;
              assert docs[j + 1] == d;
            }
          }
        }
        [docs[0]] + rest
      else rest
  }

  /** Insert `x` into `s` after every document that sorts before it. */
  function Insert<D>(o: SortOrder, x: Doc<D>, s: seq<Doc<D>>): (r: seq<Doc<D>>)
    ensures multiset(r) == multiset(s) + multiset{x}
  {
    if s == [] then [x]
    else if Before(o, s[0].id, x.id) then
      assert s == [s[0]] + s[1..];
      [s[0]] + Insert(o, x, s[1..])
    else [x] + s
  }

  /** Sort on `_id` in order `o` (insertion sort). */
  function SortById<D>(o: SortOrder, s: seq<Doc<D>>): (r: seq<Doc<D>>)
    ensures multiset(r) == multiset(s)
  {
    if s == [] then []
    else
      assert s == [s[0]] + s[1..];
      Insert(o, s[0], SortById(o, s[1..]))
  }

  lemma {:induction false} InsertOrdered<D>(o: SortOrder, x: Doc<D>, s: seq<Doc<D>>)
    requires StrictlyOrdered(o, s)
    requires forall y :: y in s ==> y.id != x.id
    ensures StrictlyOrdered(o, Insert(o, x, s))
  {
    if s != [] && Before(o, s[0].id, x.id) {
      var tail := Insert(o, x, s[1..]);
      InsertOrdered(o, x, s[1..]);
      forall y | y in tail
        ensures Before(o, s[0].id, y.id)
      {
        assert y in multiset(tail);
        assert y == x || y in s[1..];
      }
    }
  }

  /** On distinct identifiers the sort is strict: each document sorts
      strictly before every later one. */
  lemma {:induction false} SortStrictlyOrdered<D>(o: SortOrder, s: seq<Doc<D>>)
    requires DistinctIds(s)
    ensures StrictlyOrdered(o, SortById(o, s))
  {
    if s != [] {
      var rest := SortById(o, s[1..]);
      SortStrictlyOrdered(o, s[1..]);
      forall y | y in rest
        ensures y.id != s[0].id
      {
        assert y in multiset(rest);
      }
      InsertOrdered(o, s[0], rest);
    }
  }

  /** A strictly ordered sequence is determined by its elements: two that
      hold the same documents are equal. So the sort's result does not
      depend on the stored order. */
  lemma {:induction false} OrderedUnique<D>(o: SortOrder, s: seq<Doc<D>>, t: seq<Doc<D>>)
    requires StrictlyOrdered(o, s) && StrictlyOrdered(o, t)
    requires forall x :: x in s <==> x in t
    ensures s == t
  {
    assert t == [] || t[0] in t;
    if s != [] {
      assert t != [] by {
        assert s[0] in t;
      }
      assert s[0] == t[0] by {
        assert s[0] in t && t[0] in s;
        var k :| 0 <= k < |t| && t[k] == s[0];
        var m :| 0 <= m < |s| && s[m] == t[0];
        assert k == 0 || Before(o, t[0].id, s[0].id);
        assert m == 0 || Before(o, s[0].id, t[0].id);
      }
      forall x
        ensures x in s[1..] <==> x in t[1..]
      {
        if x in s[1..] {
          var i :| 1 <= i < |s| && s[i] == x;
          assert x in t && x != t[0];
        }
        if x in t[1..] {
          var i :| 1 <= i < |t| && t[i] == x;
          assert x in s && x != s[0];
        }
      }
      OrderedUnique(o, s[1..], t[1..]);
      assert s == [s[0]] + s[1..] && t == [t[0]] + t[1..];
    }
  }

  /** The first `n` documents; a non-positive `n` puts no bound (MongoDB
      reads a limit of 0 as "no limit"; `paginate` never passes one). */
  function Take<D>(s: seq<Doc<D>>, n: int): (r: seq<Doc<D>>)
    ensures |r| <= |s| && r == s[..|r|]
    ensures n > 0 ==> |r| <= n
    ensures |r| == |s| || |r| == n
  {
    if 0 < n < |s| then s[..n] else s
  }

  /** The direction a sort spec asks for on `_id`, if any. */
  function SortDirection(sort: map<string, SortOrder>): Option<SortOrder> {
    if IdField in sort then Some(sort[IdField]) else None
  }

  /** Run a query over the stored documents: select, sort on `_id` as the
      sort spec says (stored order when it names no `_id` direction), take
      `limit`. Every document returned is stored and matches the filter. */
  function Run<D(!new), V, P>(sat: (D, string, V) -> bool, docs: seq<Doc<D>>, q: Query<V, P>): (r: seq<Doc<D>>)
    ensures forall d :: d in r ==> d in docs && Matches(sat, d, q.filter)
    ensures q.options.limit > 0 ==> |r| <= q.options.limit
  {
    var selected := Select(sat, docs, q.filter);
    var sorted := match SortDirection(q.options.sort)
      case Some(o) => SortById(o, selected)
      case None => selected;
    assert forall d :: d in sorted ==> d in selected by {
      forall d | d in sorted ensures d in selected {
        assert d in multiset(sorted);
      }
    }
    Take(sorted, q.options.limit)
  }
}
