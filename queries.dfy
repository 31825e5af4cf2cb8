/** The read-only operations of the service: `findAll` (pagination over the
    available rows), `findOne` (lookup of an available row) and
    `validateProducts` (existence check of a batch of ids). Each is a
    function of the table, taken in the store's default (insertion) order. */
module Queries {
  import opened Products

  // ---------------------------------------------------------------- findAll

  /** The rows `findMany({ where: { available: true } })` sees, in table order. */
  function AvailableRows(t: seq<Product>): (r: seq<Product>)
    ensures |r| <= |t|
    ensures forall p :: p in r ==> p in t && Available(p)
    ensures forall p :: p in t && Available(p) ==> p in r
  {
    if t == [] then []
    else
      assert forall p :: p in t ==> p == t[0] || p in t[1..];
      if Available(t[0]) then [t[0]] + AvailableRows(t[1..]) else AvailableRows(t[1..])
  }

  /** `count({ where: { available: true } })`: never more than the rows. */
  function CountAvailable(t: seq<Product>): (c: nat)
    ensures c <= |t|
  {
    if t == [] then 0 else (if Available(t[0]) then 1 else 0) + CountAvailable(t[1..])
  }

  /** The count is zero exactly when no row is available, and equals the
      number of rows exactly when every row is. */
  lemma {:induction false} CountAvailableExtremes(t: seq<Product>)
    ensures CountAvailable(t) == 0 <==> forall i :: 0 <= i < |t| ==> !Available(t[i])
    ensures CountAvailable(t) == |t| <==> forall i :: 0 <= i < |t| ==> Available(t[i])
  {
    if t != [] {
      CountAvailableExtremes(t[1..]);
      assert forall i :: 0 < i < |t| ==> t[i] == t[1..][i - 1];
    }
  }

  /** The store's count agrees with the rows its filter returns. */
  lemma {:induction false} CountMatchesFilter(t: seq<Product>)
    ensures CountAvailable(t) == |AvailableRows(t)|
  {
    if t != [] {
      CountMatchesFilter(t[1..]);
    }
  }

  /** The number of rows before page `page` when pages hold `limit` rows,
      counted page by page; `OffsetIsProduct` shows it is `(page - 1) * limit`. */
  function Offset(page: int, limit: int): nat
    requires page >= 1 && limit >= 1
    decreases page
  {
    if page == 1 then 0 else Offset(page - 1, limit) + limit
  }

  lemma {:induction false} OffsetIsProduct(page: int, limit: int)
    requires page >= 1 && limit >= 1
    ensures Offset(page, limit) == (page - 1) * limit
    decreases page
  {
    if page > 1 {
      OffsetIsProduct(page - 1, limit);
      assert (page - 1) * limit == (page - 2) * limit + limit;
    }
  }

  lemma {:induction false} OffsetMonotone(p: int, q: int, limit: int)
    requires 1 <= p <= q && limit >= 1
    ensures Offset(p, limit) <= Offset(q, limit)
    decreases q
  {
    if p < q {
      OffsetMonotone(p, q - 1, limit);
    }
  }

  lemma CeilingBounds(total: nat, limit: nat, r: nat)
    requires limit >= 1 && r == (total + limit - 1) / limit
    ensures total <= r * limit
    ensures r == 0 || (r - 1) * limit < total
  {
  }

  /** `Math.ceil(total / limit)` on integers: the fewest pages of `limit`
      rows that hold `total` rows (pages 1 to r hold `Offset(r + 1, limit)`). */
  function LastPage(total: nat, limit: int): (r: nat)
    requires limit >= 1
    ensures total <= Offset(r + 1, limit)
    ensures r == 0 || Offset(r, limit) < total
    ensures r == 0 <==> total == 0
  {
    var r := (total + limit - 1) / limit;
    CeilingBounds(total, limit, r);
    OffsetIsProduct(r + 1, limit);
    OffsetIsProduct(if r > 0 then r else 1, limit);
    r
  }

  /** The bounds of the last page written with products:
      `(lastPage - 1) * limit < total <= lastPage * limit` when there are rows. */
  lemma LastPageBounds(total: nat, limit: int)
    requires limit >= 1
    ensures total <= LastPage(total, limit) * limit
    ensures total == 0 ==> LastPage(total, limit) == 0
    ensures total > 0 ==> (LastPage(total, limit) - 1) * limit < total
  {
  }

  /** `skip: n` drops the first `n` rows: the rows beyond position `n` are
      left, in order, and none when there are no more than `n`. */
  function Skip(s: seq<Product>, n: nat): (r: seq<Product>)
    ensures |r| == if n >= |s| then 0 else |s| - n
    ensures forall k :: 0 <= k < |r| ==> r[k] == s[n + k]
  {
    if n >= |s| then [] else s[n..]
  }

  /** `take: n` keeps the first `n` rows in order, or all of them when
      there are no more than `n`. */
  function Take(s: seq<Product>, n: nat): (r: seq<Product>)
    ensures |r| == if n >= |s| then |s| else n
    ensures forall k :: 0 <= k < |r| ==> r[k] == s[k]
  {
    if n >= |s| then s else s[..n]
  }

  function Min(a: int, b: int): int {
    if a <= b then a else b
  }

  datatype Meta = Meta(total: nat, page: int, lastPage: nat)

  datatype Page = Page(data: seq<Product>, meta: Meta)

  /** What `skip` then `take` leave of a sequence of rows: the rows from
      position `skip` on, in order, at most `take` of them. */
  lemma SkipTake(a: seq<Product>, skip: nat, take: nat)
    ensures |Take(Skip(a, skip), take)| == if skip >= |a| then 0 else Min(take, |a| - skip)
    ensures forall k :: 0 <= k < |Take(Skip(a, skip), take)| ==>
              skip + k < |a| && Take(Skip(a, skip), take)[k] == a[skip + k]
    ensures forall p :: p in Take(Skip(a, skip), take) ==> p in a
  {
  }

  /** `findMany({ take: limit, skip: (page - 1) * limit, where: { available: true } })`. */
  function PageRows(t: seq<Product>, page: int, limit: int): (r: seq<Product>)
    requires page >= 1 && limit >= 1
    ensures |r| <= limit
    ensures forall p :: p in r ==> p in t && Available(p)
  {
    var skip := Offset(page, limit);
    SkipTake(AvailableRows(t), skip, limit);
    Take(Skip(AvailableRows(t), skip), limit)
  }

  /** `findAll({ page, limit })`: the available rows counted, the last page
      computed from that count, and at most `limit` available rows returned. */
  function FindAll(t: seq<Product>, page: int, limit: int): (r: Page)
    requires page >= 1 && limit >= 1
    ensures r.meta.total == |AvailableRows(t)| && r.meta.page == page
    ensures r.meta.lastPage == LastPage(r.meta.total, limit)
    ensures |r.data| <= limit
    ensures forall p :: p in r.data ==> p in t && Available(p)
  {
    var total := CountAvailable(t);
    CountMatchesFilter(t);
    Page(PageRows(t, page, limit), Meta(total, page, LastPage(total, limit)))
  }

  /** The rows of page `page` are the available rows from position
      `(page - 1) * limit` on, as many as there are up to `limit`, in order. */
  lemma FindAllPage(t: seq<Product>, page: int, limit: int)
    requires page >= 1 && limit >= 1
    ensures var skip := (page - 1) * limit;
            var data := FindAll(t, page, limit).data;
            && |data| == (if skip >= |AvailableRows(t)| then 0 else Min(limit, |AvailableRows(t)| - skip))
            && forall k :: 0 <= k < |data| ==>
                 skip + k < |AvailableRows(t)| && data[k] == AvailableRows(t)[skip + k]
  {
    OffsetIsProduct(page, limit);
    SkipTake(AvailableRows(t), Offset(page, limit), limit);
  }

  /** Page `page` is the slice of available rows from `Offset(page, limit)`. */
  lemma PageRowsSlice(t: seq<Product>, page: int, limit: int)
    requires page >= 1 && limit >= 1
    ensures var lo := Offset(page, limit);
            PageRows(t, page, limit) ==
              if lo >= |AvailableRows(t)| then []
              else AvailableRows(t)[lo..Min(lo + limit, |AvailableRows(t)|)]
  {
  }

  /** A page has rows exactly when its number is at most the last page. */
  lemma PageNonEmptyIff(t: seq<Product>, page: int, limit: int)
    requires page >= 1 && limit >= 1
    ensures |FindAll(t, page, limit).data| > 0 <==> page <= FindAll(t, page, limit).meta.lastPage
  {
    var last := FindAll(t, page, limit).meta.lastPage;
    PageRowsSlice(t, page, limit);
    if page <= last {
      OffsetMonotone(page, last, limit);
    } else {
      OffsetMonotone(last + 1, page, limit);
    }
  }

  /** The rows of pages 1 to n of `FindAll` (whose data is `PageRows`), one
      page after the other. */
  function PagesUpTo(t: seq<Product>, limit: int, n: nat): seq<Product>
    requires limit >= 1
  {
    if n == 0 then [] else PagesUpTo(t, limit, n - 1) + PageRows(t, n, limit)
  }

  /** Appending the slice `[lo, hi)` to the prefix before `lo` gives the
      prefix before `hi`, all cut at the end of `a`. */
  lemma PrefixThenSlice(a: seq<Product>, lo: nat, hi: nat)
    requires lo <= hi
    ensures a[..Min(lo, |a|)] + (if lo >= |a| then [] else a[lo..Min(hi, |a|)]) == a[..Min(hi, |a|)]
  {
  }

  /** Pages 1 to n hold the first `Offset(n + 1, limit)` available rows (all
      of them once that reaches their number). */
  lemma {:induction false} PagesUpToPrefix(t: seq<Product>, limit: int, n: nat)
    requires limit >= 1
    ensures PagesUpTo(t, limit, n) == AvailableRows(t)[..Min(Offset(n + 1, limit), |AvailableRows(t)|)]
  {
    if n > 0 {
      PagesUpToPrefix(t, limit, n - 1);
      PageRowsSlice(t, n, limit);
      PrefixThenSlice(AvailableRows(t), Offset(n, limit), Offset(n + 1, limit));
    }
  }

  /** Walking pages 1 to `lastPage` lists every available row once, in order. */
  lemma PagesCoverAvailable(t: seq<Product>, limit: int)
    requires limit >= 1
    ensures PagesUpTo(t, limit, FindAll(t, 1, limit).meta.lastPage) == AvailableRows(t)
  {
    PagesUpToPrefix(t, limit, FindAll(t, 1, limit).meta.lastPage);
  }

  // ---------------------------------------------------------------- findOne

  /** `findUnique({ where: { id, available: true } })`, failing when absent. */
  function FindOne(t: seq<Product>, id: int): (r: Result<Product>)
    requires UniqueIds(t)
    ensures r.Ok? <==> exists i :: 0 <= i < |t| && t[i].id == id && Available(t[i])
    ensures r.Ok? ==> r.value in t && r.value.id == id && Available(r.value)
    ensures r.Err? ==> r.error == NotFound(NotFoundMessage(id))
  {
    match Find(t, id)
    case None => Err(NotFound(NotFoundMessage(id)))
    case Some(i) =>
      if Available(t[i]) then Ok(t[i])
      else
        assert forall j :: 0 <= j < |t| && t[j].id == id ==> j == i;
        Err(NotFound(NotFoundMessage(id)))
  }

  // ------------------------------------------------------- validateProducts

  predicate NoDuplicates(s: seq<int>) {
    forall i, j :: 0 <= i < j < |s| ==> s[i] != s[j]
  }

  /** `Array.from(new Set(ids))`: the ids, first occurrences only, in order. */
  function Dedup(ids: seq<int>): (r: seq<int>)
    ensures forall x :: x in r <==> x in ids
    ensures NoDuplicates(r)
  {
    if ids == [] then []
    else
      var init := ids[..|ids| - 1];
      assert forall x :: x in ids <==> x in init || x == ids[|ids| - 1];
      var r := Dedup(init);
      if ids[|ids| - 1] in r then r else r + [ids[|ids| - 1]]
  }

  /** `findMany({ where: { id: { in: ids } } })`, with no availability filter. */
  function RowsWithIds(t: seq<Product>, ids: seq<int>): (r: seq<Product>)
    ensures forall p :: p in r <==> p in t && p.id in ids
  {
    if t == [] then []
    else
      assert forall p :: p in t <==> p == t[0] || p in t[1..];
      if t[0].id in ids then [t[0]] + RowsWithIds(t[1..], ids) else RowsWithIds(t[1..], ids)
  }

  /** The requested ids that name a row, in request order. */
  function PresentIds(t: seq<Product>, ids: seq<int>): (r: seq<int>)
    ensures |r| <= |ids|
    ensures |r| == |ids| <==> forall x :: x in ids ==> HasId(t, x)
  {
    if ids == [] then []
    else
      var init := ids[..|ids| - 1];
      var x := ids[|ids| - 1];
      assert forall y :: y in ids <==> y in init || y == x;
      if HasId(t, x) then PresentIds(t, init) + [x] else PresentIds(t, init)
  }

  /** Adding an id not yet requested adds the rows carrying it. */
  lemma {:induction false} RowsWithIdsSnoc(t: seq<Product>, ids: seq<int>, x: int)
    requires x !in ids
    ensures |RowsWithIds(t, ids + [x])| == |RowsWithIds(t, ids)| + |RowsWithIds(t, [x])|
  {
    if t != [] {
      RowsWithIdsSnoc(t[1..], ids, x);
    }
  }

  /** With unique ids, at most one row carries a given id. */
  lemma {:induction false} RowsWithIdSingle(t: seq<Product>, x: int)
    requires UniqueIds(t)
    ensures |RowsWithIds(t, [x])| == if HasId(t, x) then 1 else 0
  {
    if t != [] {
      var rest := t[1..];
      assert UniqueIds(rest) by {
        forall i, j | 0 <= i < j < |rest| ensures rest[i].id != rest[j].id {
          assert rest[i] == t[i + 1] && rest[j] == t[j + 1];
        }
      }
      RowsWithIdSingle(rest, x);
      assert forall k :: 0 <= k < |rest| ==> rest[k] == t[k + 1];
      if t[0].id == x {
        assert !HasId(rest, x);
      } else {
        assert HasId(t, x) <==> HasId(rest, x) by {
          if HasId(t, x) {
            var k :| 0 <= k < |t| && t[k].id == x;
            assert rest[k - 1].id == x;
          }
        }
      }
    }
  }

  lemma {:induction false} RowsWithNoIds(t: seq<Product>)
    ensures RowsWithIds(t, []) == []
  {
    if t != [] {
      RowsWithNoIds(t[1..]);
    }
  }

  /** With unique ids and distinct requested ids, the filter returns one row
      per requested id present in the table. */
  lemma {:induction false} RowsWithIdsCount(t: seq<Product>, ids: seq<int>)
    requires UniqueIds(t) && NoDuplicates(ids)
    ensures |RowsWithIds(t, ids)| == |PresentIds(t, ids)|
  {
    if ids == [] {
      RowsWithNoIds(t);
    } else {
      var init := ids[..|ids| - 1];
      var x := ids[|ids| - 1];
      assert ids == init + [x];
      assert NoDuplicates(init);
      assert x !in init by {
        forall k | 0 <= k < |init| ensures init[k] != x {
          assert init[k] == ids[k];
        }
      }
      RowsWithIdsCount(t, init);
      RowsWithIdsSnoc(t, init, x);
      RowsWithIdSingle(t, x);
      assert |PresentIds(t, ids)| == |PresentIds(t, init)| + if HasId(t, x) then 1 else 0;
      assert RowsWithIds(t, ids) == RowsWithIds(t, init + [x]);
    }
  }

  /** `validateProducts(ids)`. */
  function ValidateProducts(t: seq<Product>, ids: seq<int>): (r: Result<seq<Product>>)
    requires UniqueIds(t)
    ensures r.Ok? <==> forall x :: x in ids ==> HasId(t, x)
    ensures r.Ok? ==> forall p :: p in r.value ==> p in t && p.id in ids
    ensures r.Ok? ==> forall x :: x in ids ==> exists p :: p in r.value && p.id == x
    ensures r.Err? ==> r.error == BatchMismatch(BATCH_MESSAGE)
  {
    var distinct := Dedup(ids);
    var products := RowsWithIds(t, distinct);
    RowsWithIdsCount(t, distinct);
    if |distinct| != |products| then
      Err(BatchMismatch(BATCH_MESSAGE))
    else
      assert forall x :: x in ids ==> exists i :: 0 <= i < |t| && t[i].id == x && t[i] in products;
      Ok(products)
  }
}
