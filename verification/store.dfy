/** The database as the repositories see it: one table per entity, keyed by an
    identity column, plus the service response envelopes and the filter-then-page
    listing every `GetAll` performs. Rows are listed in ascending id order. */
module Store {
  import opened Text
  import Order
  import Int32

  /** `Response<T>(statusCode, message[, data])`. */
  datatype Response<T> = Response(status: int, message: string, data: Option<T>)

  /** The arguments a repository passes to the `PagedResponse<T>` constructor, in
      call order (the constructor itself is not part of this model). */
  datatype PagedCall<T> = PagedCall(data: seq<T>, arg2: int, arg3: int, arg4: int)

  /** A table: rows keyed by id, and the next value of the identity sequence. */
  datatype Table<T> = Table(rows: map<int, T>, nextId: int)

  /** `FindAsync` by primary key, then the DTO `view` builds: a 404 reply with the
      repository's not-found text for an unknown id. */
  function Lookup<T, D>(t: Table<T>, id: int, view: (int, T) -> D, found: string, notFound: string)
    : (r: Response<D>)
    ensures r.data.Some? <==> id in t.rows
    ensures id !in t.rows ==> r == Response(404, notFound, None)
    ensures id in t.rows ==> r == Response(200, found, Some(view(id, t.rows[id])))
  {
    if id !in t.rows then Response(404, notFound, None)
    else Response(200, found, Some(view(id, t.rows[id])))
  }

  /** `FindAsync` by primary key, then `Remove` and save: an unknown id changes nothing. */
  function DeleteRow<T>(t: Table<T>, id: int, deleted: string, notFound: string)
    : (r: (Table<T>, Response<string>))
    ensures id !in t.rows ==> r.0 == t && r.1 == Response(404, notFound, None)
    ensures id in t.rows ==>
      && r.0.rows == t.rows - {id} && r.0.nextId == t.nextId
      && r.1 == Response(200, deleted, None)
  {
    if id !in t.rows then (t, Response(404, notFound, None))
    else (t.(rows := t.rows - {id}), Response(200, deleted, None))
  }

  /** Ids are positive and below the next identity value, so a fresh id is never in use. */
  predicate Valid<T>(t: Table<T>) {
    t.nextId >= 1 && forall id :: id in t.rows ==> 1 <= id < t.nextId
  }

  /** The ids in the order a query without `OrderBy` returns them (ascending here). */
  function Ids<T>(t: Table<T>): (ids: seq<int>)
    ensures forall id :: id in ids <==> id in t.rows
    ensures Order.Distinct(ids)
    ensures |ids| == |t.rows|
  {
    Order.SortedInts(t.rows.Keys)
  }

  /** `Add` + `SaveChanges`: the row receives the next identity value. */
  function Insert<T>(t: Table<T>, row: T): (r: (Table<T>, int))
    requires Valid(t)
    ensures Valid(r.0)
    ensures r.1 !in t.rows && r.1 in r.0.rows && r.0.rows[r.1] == row
    ensures forall id :: id != r.1 ==> (id in r.0.rows <==> id in t.rows)
    ensures forall id :: id in t.rows ==> r.0.rows[id] == t.rows[id]
  {
    (Table(t.rows[t.nextId := row], t.nextId + 1), t.nextId)
  }

  /** Removing a row that is just inserted gives back the original rows. */
  lemma InsertThenRemove<T>(t: Table<T>, row: T)
    requires Valid(t)
    ensures Insert(t, row).0.rows - {Insert(t, row).1} == t.rows
  {
  }

  // ---------------------------------------------------------------------------
  // Filtering

  /** The elements of `xs` satisfying `p`, in their original order. */
  function Filter<T(!new)>(xs: seq<T>, p: T -> bool): (r: seq<T>)
    ensures |r| <= |xs|
    ensures forall x :: x in r <==> x in xs && p(x)
    decreases |xs|
  {
    if |xs| == 0 then []
    else if p(xs[0]) then [xs[0]] + Filter(xs[1..], p)
    else Filter(xs[1..], p)
  }

  lemma {:induction false} FilterDistinct<T(!new)>(xs: seq<T>, p: T -> bool)
    requires Order.Distinct(xs)
    ensures Order.Distinct(Filter(xs, p))
    decreases |xs|
  {
    if |xs| > 0 {
      FilterDistinct(xs[1..], p);
      assert xs[0] !in xs[1..];
    }
  }

  /** The elements of `xs` that satisfy `p`, as a set. */
  function Satisfying<T(!new)>(xs: seq<T>, p: T -> bool): set<T> {
    set x | x in xs && p(x)
  }

  /** Over distinct elements, the filtered count is the number of elements that satisfy
      the predicate: `CountAsync` over the filtered query. */
  lemma {:induction false} FilterCount<T(!new)>(xs: seq<T>, p: T -> bool)
    requires Order.Distinct(xs)
    ensures |Filter(xs, p)| == |Satisfying(xs, p)|
    decreases |xs|
  {
    if |xs| > 0 {
      var rest := xs[1..];
      FilterCount(rest, p);
      var s := Satisfying(rest, p);
      var s' := Satisfying(xs, p);
      assert xs[0] !in rest;
      if p(xs[0]) {
        assert s' == s + {xs[0]};
      } else {
        assert s' == s;
      }
    }
  }

  /** The `Where` predicate on ids: the row exists and passes the filter. */
  function Keeps<T>(t: Table<T>, keep: T -> bool): int -> bool {
    id => id in t.rows && keep(t.rows[id])
  }

  /** The ids of the rows that pass the filter. */
  function Matching<T>(t: Table<T>, keep: T -> bool): set<int> {
    set id | id in t.rows && keep(t.rows[id])
  }

  /** A filter every row passes matches the whole table. */
  lemma MatchingAll<T>(t: Table<T>, keep: T -> bool)
    requires forall id :: id in t.rows ==> keep(t.rows[id])
    ensures |Matching(t, keep)| == |t.rows|
  {
    forall id ensures id in Matching(t, keep) <==> id in t.rows.Keys {
    }
    assert Matching(t, keep) == t.rows.Keys;
  }

  /** The ids of the rows a filtered query yields, in listing order, and how many
      there are: what `Where` followed by `CountAsync` sees. */
  function MatchingIds<T(!new)>(t: Table<T>, keep: T -> bool): (ids: seq<int>)
    ensures forall id :: id in ids <==> id in t.rows && keep(t.rows[id])
    ensures forall k :: 0 <= k < |ids| ==> ids[k] in t.rows && keep(t.rows[ids[k]])
    ensures Order.Distinct(ids)
    ensures |ids| == |Matching(t, keep)|
  {
    FilterDistinct(Ids(t), Keeps(t, keep));
    MatchingCount(t, keep);
    MatchingMembers(t, keep);
    Filter(Ids(t), Keeps(t, keep))
  }

  lemma MatchingMembers<T(!new)>(t: Table<T>, keep: T -> bool)
    ensures var ids := Filter(Ids(t), Keeps(t, keep));
      forall k :: 0 <= k < |ids| ==> ids[k] in t.rows && keep(t.rows[ids[k]])
  {
    var ids := Filter(Ids(t), Keeps(t, keep));
    forall k | 0 <= k < |ids| ensures ids[k] in t.rows && keep(t.rows[ids[k]]) {
      assert ids[k] in ids;
      assert Keeps(t, keep)(ids[k]);
    }
  }

  lemma MatchingCount<T(!new)>(t: Table<T>, keep: T -> bool)
    ensures |Filter(Ids(t), Keeps(t, keep))| == |Matching(t, keep)|
  {
    FilterCount(Ids(t), Keeps(t, keep));
    SatisfyingIsMatching(t, keep);
  }

  /** The ids satisfying the `Where` predicate are the matching rows' ids. */
  lemma SatisfyingIsMatching<T(!new)>(t: Table<T>, keep: T -> bool)
    ensures Satisfying(Ids(t), Keeps(t, keep)) == Matching(t, keep)
  {
    var p := Keeps(t, keep);
    var ids := Ids(t);
    forall id ensures id in Satisfying(ids, p) <==> id in Matching(t, keep) {
      assert id in ids <==> id in t.rows;
      assert p(id) <==> id in t.rows && keep(t.rows[id]);
    }
  }

  // ---------------------------------------------------------------------------
  // Paging

  /** `(PageNumber - 1) * PageSize` evaluated in 32-bit C# arithmetic. */
  function Offset(pageNumber: int, pageSize: int): int {
    Int32.Wrap(Int32.Wrap(pageNumber - 1) * pageSize)
  }

  /** How many of `n` elements a page starting at `offset` with room for `size` holds. */
  function PageLength(n: int, offset: int, size: int): int {
    if offset >= n then 0 else if n - offset < size then n - offset else size
  }

  /** `Skip(offset).Take(size)` as PostgreSQL runs it: a negative OFFSET or LIMIT is
      rejected by the database (`None`); otherwise the elements from position `offset`
      on, at most `size` of them. */
  function Page<T>(xs: seq<T>, offset: int, size: int): (r: Option<seq<T>>)
    ensures r.None? <==> offset < 0 || size < 0
    ensures r.Some? ==> |r.value| == PageLength(|xs|, offset, size) && |r.value| <= size
    ensures r.Some? ==> forall k :: 0 <= k < |r.value| ==> offset + k < |xs| && r.value[k] == xs[offset + k]
  {
    if offset < 0 || size < 0 then None
    else
      var lo := if offset < |xs| then offset else |xs|;
      var hi := if offset + size < |xs| then offset + size else |xs|;
      Some(xs[lo..hi])
  }

  /** With a positive page size, position `i` is entry `i % size` of page `i / size + 1`:
      the 32-bit offset of that page is `i` minus the entry. */
  lemma PageOfPosition(pageSize: int, i: int)
    requires 0 < pageSize <= Int32.MAX
    requires 0 <= i < Int32.MAX
    ensures Offset(i / pageSize + 1, pageSize) + i % pageSize == i
    ensures 0 <= i % pageSize < pageSize && i % pageSize <= i
  {
    var q := i / pageSize;
    var off := q * pageSize;
    DivisionFacts(i, pageSize);
    assert Int32.Wrap(q + 1 - 1) == q;
    assert Int32.Wrap(off) == off;
  }

  /** Element `i` is entry `i - offset` of the page at `offset`, when that entry is
      below the page size. */
  lemma PageCovers<T>(xs: seq<T>, offset: int, size: int, i: int)
    requires 0 <= offset <= i < |xs| && i - offset < size
    ensures var p := Page(xs, offset, size);
      p.Some? && i - offset < |p.value| && p.value[i - offset] == xs[i]
  {
  }

  lemma DivisionFacts(i: int, d: int)
    requires 0 <= i && 0 < d
    ensures 0 <= i / d <= i && 0 <= i % d < d
    ensures (i / d) * d + i % d == i && 0 <= (i / d) * d <= i
  {
    var q := i / d;
    var m := i % d;
    assert q * d + m == i && 0 <= m < d;
    assert q >= 0 by {
      if q < 0 {
        MulNonNegative(-q, d);
        assert false;
      }
    }
    MulNonNegative(q, d - 1);
    assert q * d == q * (d - 1) + q;
  }

  lemma MulNonNegative(a: int, b: int)
    requires 0 <= a && 0 <= b
    ensures 0 <= a * b
  {
  }

  // ---------------------------------------------------------------------------
  // Listing

  /** `data` and `total` are what a `GetAll` reports for the page at `offset` with room
      for `size` rows: `total` counts every row that passes the filter, and `data` holds
      the DTOs of the matching rows at consecutive positions from `offset` on, as many
      as fit. */
  ghost predicate IsPage<T(!new), D>(t: Table<T>, keep: T -> bool, view: (int, T) -> D, offset: int, size: int,
                                     data: seq<D>, total: int) {
    && total == |Matching(t, keep)|
    && |data| == PageLength(|MatchingIds(t, keep)|, offset, size)
    && |data| <= size
    && forall k :: 0 <= k < |data| ==>
         var ids := MatchingIds(t, keep);
         0 <= offset + k < |ids| && ids[offset + k] in t.rows
         && data[k] == view(ids[offset + k], t.rows[ids[offset + k]])
  }

  /** A repository's `GetAll` after the offset is computed: filter, count, skip and take,
      and map each row to its DTO. `None` when the database rejects the page; otherwise
      the page and the total number of matching rows. */
  function Listing<T(!new), D>(t: Table<T>, keep: T -> bool, view: (int, T) -> D, offset: int, size: int)
    : (r: Option<(seq<D>, int)>)
    ensures r.None? <==> offset < 0 || size < 0
    ensures r.Some? ==> IsPage(t, keep, view, offset, size, r.value.0, r.value.1)
  {
    var ids := MatchingIds(t, keep);
    var p := Page(ids, offset, size);
    if p.None? then None
    else
      ViewsOfPage(t, keep, view, offset, size);
      Some((Views(t, p.value, view), |ids|))
  }

  /** The DTOs of a page of matching rows form that page of the listing. */
  lemma ViewsOfPage<T(!new), D>(t: Table<T>, keep: T -> bool, view: (int, T) -> D, offset: int, size: int)
    requires Page(MatchingIds(t, keep), offset, size).Some?
    ensures var page := Page(MatchingIds(t, keep), offset, size).value;
      && (forall k :: 0 <= k < |page| ==> page[k] in t.rows)
      && IsPage(t, keep, view, offset, size, Views(t, page, view), |MatchingIds(t, keep)|)
  {
    var ids := MatchingIds(t, keep);
    var page := Page(ids, offset, size).value;
    PageMembers(t, keep, offset, size);
    var data := Views(t, page, view);
    assert |data| == |page| == PageLength(|ids|, offset, size);
    forall k | 0 <= k < |data|
      ensures 0 <= offset + k < |ids| && ids[offset + k] in t.rows
      ensures data[k] == view(ids[offset + k], t.rows[ids[offset + k]])
    {
    }
  }

  /** Each entry of a page of matching ids is a stored row's id. */
  lemma PageMembers<T(!new)>(t: Table<T>, keep: T -> bool, offset: int, size: int)
    requires Page(MatchingIds(t, keep), offset, size).Some?
    ensures var ids := MatchingIds(t, keep);
      var page := Page(ids, offset, size).value;
      forall k :: 0 <= k < |page| ==> offset + k < |ids| && page[k] == ids[offset + k] && page[k] in t.rows
  {
  }

  /** The DTO of each listed row, in order. */
  function Views<T, D>(t: Table<T>, ids: seq<int>, view: (int, T) -> D): (r: seq<D>)
    requires forall k :: 0 <= k < |ids| ==> ids[k] in t.rows
    ensures |r| == |ids|
    ensures forall k :: 0 <= k < |ids| ==> r[k] == view(ids[k], t.rows[ids[k]])
  {
    seq(|ids|, k requires 0 <= k < |ids| => view(ids[k], t.rows[ids[k]]))
  }

  /** Every listed element is the DTO of some row that satisfies the filter. */
  lemma ListingSound<T(!new), D>(t: Table<T>, keep: T -> bool, view: (int, T) -> D, offset: int, size: int, d: D)
    requires Listing(t, keep, view, offset, size).Some?
    requires d in Listing(t, keep, view, offset, size).value.0
    ensures exists id :: id in t.rows && keep(t.rows[id]) && d == view(id, t.rows[id])
  {
    var r := Listing(t, keep, view, offset, size);
    assert IsPage(t, keep, view, offset, size, r.value.0, r.value.1);
    var ids := MatchingIds(t, keep);
    var k :| 0 <= k < |r.value.0| && r.value.0[k] == d;
    var id := ids[offset + k];
    assert id in ids;
  }

  /** With a positive page size, every matching row is listed on the page its position
      selects. */
  lemma ListingComplete<T(!new), D>(t: Table<T>, keep: T -> bool, view: (int, T) -> D, pageSize: int, id: int)
    requires 0 < pageSize <= Int32.MAX && |t.rows| < Int32.MAX
    requires id in t.rows && keep(t.rows[id])
    ensures exists pageNumber ::
      var r := Listing(t, keep, view, Offset(pageNumber, pageSize), pageSize);
      r.Some? && view(id, t.rows[id]) in r.value.0
  {
    var ids := MatchingIds(t, keep);
    assert id in ids;
    var i :| 0 <= i < |ids| && ids[i] == id;
    assert |ids| <= |t.rows| by {
      assert Matching(t, keep) <= t.rows.Keys;
      assert |t.rows.Keys| == |t.rows|;
    }
    PageOfPosition(pageSize, i);
    var pn := i / pageSize + 1;
    var off := Offset(pn, pageSize);
    ListedAtPosition(t, keep, view, off, pageSize, i);
    var r := Listing(t, keep, view, off, pageSize);
    assert r.value.0[i - off] in r.value.0;
  }

  /** The matching row at position `i` is entry `i - offset` of the listing at `offset`,
      when that entry fits in the page. */
  lemma ListedAtPosition<T(!new), D>(t: Table<T>, keep: T -> bool, view: (int, T) -> D, offset: int, size: int, i: int)
    requires 0 <= offset <= i < |MatchingIds(t, keep)| && i - offset < size
    ensures var r := Listing(t, keep, view, offset, size);
      && r.Some? && i - offset < |r.value.0|
      && MatchingIds(t, keep)[i] in t.rows
      && r.value.0[i - offset] == view(MatchingIds(t, keep)[i], t.rows[MatchingIds(t, keep)[i]])
  {
    var ids := MatchingIds(t, keep);
    var r := Listing(t, keep, view, offset, size);
    EntryOfPage(t, keep, view, offset, size, r.value.0, r.value.1, i - offset);
  }

  /** Entry `k` of a page is the DTO of the matching row at position `offset + k`. */
  lemma EntryOfPage<T(!new), D>(t: Table<T>, keep: T -> bool, view: (int, T) -> D, offset: int, size: int,
                                data: seq<D>, total: int, k: int)
    requires IsPage(t, keep, view, offset, size, data, total)
    requires 0 <= offset && 0 <= k < size && offset + k < |MatchingIds(t, keep)|
    ensures k < |data|
    ensures MatchingIds(t, keep)[offset + k] in t.rows
    ensures data[k] == view(MatchingIds(t, keep)[offset + k], t.rows[MatchingIds(t, keep)[offset + k]])
  {
    assert |data| == PageLength(|MatchingIds(t, keep)|, offset, size);
  }
}
