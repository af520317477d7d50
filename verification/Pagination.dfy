/** Page arithmetic in unsigned 32 bits, and the pages of one listing. */
module Pagination {
  import opened Numbers
  import opened Wrappers

  const U32_MAX: nat := 0xffff_ffff

  datatype Request = Request(page: nat, pageSize: nat)

  /** The constructor clamps both fields. */
  function NewRequest(page: nat, pageSize: nat): Request {
    Request(Max(page, 1), Max(1, Min(pageSize, 100)))
  }

  /** `None` when the subtraction or the multiplication leaves 32 bits. */
  function Offset(r: Request): Option<nat> {
    if r.page == 0 || (r.page - 1) * r.pageSize > U32_MAX then None
    else Some((r.page - 1) * r.pageSize)
  }

  function Ceil(x: real): int {
    if x.Floor as real == x then x.Floor else x.Floor + 1
  }

  /** A quotient rounded up and cast to 32 bits by saturation; dividing by a page size of zero
      gives infinity, or not-a-number for an empty listing, which casts to zero. */
  function TotalPages(total: nat, pageSize: nat): nat {
    var pages: int :=
      if pageSize == 0 then (if total == 0 then 0 else U32_MAX)
      else Ceil(total as real / pageSize as real);
    Max(1, Min(if pages < 0 then 0 else pages, U32_MAX))
  }

  /** `skip(offset).take(limit)`. */
  function Page<T>(all: seq<T>, offset: nat, limit: nat): seq<T> {
    if offset >= |all| then [] else all[offset..Min(offset + limit, |all|)]
  }

  // ---------- The number of pages ----------

  lemma RealScale(a: real, b: real, size: real)
    requires size > 0.0
    ensures a < b ==> a * size < b * size
    ensures a <= b ==> a * size <= b * size
  {
  }

  lemma CeilBounds(q: real)
    ensures (Ceil(q) - 1) as real < q <= Ceil(q) as real
  {
  }

  lemma ProductOfInts(a: int, b: int)
    ensures a as real * b as real == (a * b) as real
  {
  }

  lemma QuotientTimes(a: real, b: real)
    requires b > 0.0
    ensures (a / b) * b == a
  {
  }

  lemma BelowQuotient(d: int, q: real, size: nat, total: nat)
    requires size >= 1 && q * size as real == total as real && d as real < q
    ensures d * size < total
  {
    RealScale(d as real, q, size as real);
    ProductOfInts(d, size);
  }

  lemma AboveQuotient(c: int, q: real, size: nat, total: nat)
    requires size >= 1 && q * size as real == total as real && q <= c as real
    ensures total <= c * size
  {
    RealScale(q, c as real, size as real);
    ProductOfInts(c, size);
  }

  lemma CeilOfQuotient(total: nat, size: nat)
    requires size >= 1
    ensures var c := Ceil(total as real / size as real);
            (c - 1) * size < total <= c * size
  {
    var q := total as real / size as real;
    QuotientTimes(total as real, size as real);
    CeilBounds(q);
    BelowQuotient(Ceil(q) - 1, q, size, total);
    AboveQuotient(Ceil(q), q, size, total);
  }

  /** A listing that fits in 32 bits has the least number of pages, at least one, that holds it. */
  lemma LeastPages(total: nat, size: nat)
    requires 1 <= size && total <= U32_MAX
    ensures var pages := TotalPages(total, size);
            && pages >= 1 && total <= pages * size
            && (forall p: nat :: p >= 1 && total <= p * size ==> pages <= p)
  {
    var c := Ceil(total as real / size as real);
    CeilOfQuotient(total, size);
    assert c <= U32_MAX by {
      if c > U32_MAX {
        Scale(U32_MAX, c - 1, size);
        Scale(1, size, U32_MAX);
      }
    }
    assert c >= 0 by {
      if c < 0 { Scale(c, 0, size); }
    }
    forall p: nat | p >= 1 && total <= p * size ensures c <= p {
      if p <= c - 1 { Scale(p, c - 1, size); }
    }
  }

  /** The offset of every page up to the last fits in 32 bits and lies inside the listing. */
  lemma OffsetFits(total: nat, size: nat, page: nat)
    requires 1 <= size && total <= U32_MAX && 1 <= page <= TotalPages(total, size)
    ensures Offset(Request(page, size)) == Some((page - 1) * size)
    ensures page > 1 ==> (page - 1) * size < total
  {
    LeastPages(total, size);
    if page > 1 {
      var p: nat := page - 1;
      assert !(total <= p * size);
    }
  }

  /** Beyond 32 bits the number of pages saturates, and a page size of zero gives the largest
      number unless there is nothing to list. */
  lemma PagesSaturate(total: nat, size: nat)
    ensures size >= 1 && total > 0xffff_ffff * size ==> TotalPages(total, size) == 0xffff_ffff
    ensures TotalPages(total, 0) == if total == 0 then 1 else 0xffff_ffff
  {
    if size >= 1 && total > 0xffff_ffff * size {
      var c := Ceil(total as real / size as real);
      CeilOfQuotient(total, size);
      if c <= U32_MAX { Scale(c, U32_MAX, size); }
    }
  }

  // ---------- All pages together ----------

  /** One page of a listing; `None` when its offset overflows. */
  function ListPage<T>(all: seq<T>, r: Request): Option<seq<T>> {
    match Offset(r)
    case Some(offset) => Some(Page(all, offset, r.pageSize))
    case None => None
  }

  /** What any request lists: page 0 counts as page 1, page sizes are clamped to 1 to 100, pages
      beyond the end are empty, and there is no answer if the offset leaves 32 bits. */
  lemma RequestExact<T>(all: seq<T>, page: nat, pageSize: nat, size: nat, from: nat)
    requires size == if pageSize == 0 then 1 else if pageSize > 100 then 100 else pageSize
    requires from == if page == 0 then 0 else (page - 1) * size
    ensures ListPage(all, NewRequest(page, pageSize))
         == if from > 0xffff_ffff then None
            else if from >= |all| then Some([])
            else if from + size <= |all| then Some(all[from..from + size])
            else Some(all[from..])
  {
    var r := NewRequest(page, pageSize);
    assert r.pageSize == size && r.page == (if page == 0 then 1 else page);
    if page == 0 { assert (1 - 1) * size == 0; }
    assert (r.page - 1) * r.pageSize == from;
    assert Offset(r) == if from > U32_MAX then None else Some(from);
    PageIs(all, from, size);
  }

  lemma PageIs<T>(all: seq<T>, from: nat, size: nat)
    ensures Page(all, from, size)
         == if from >= |all| then [] else if from + size <= |all| then all[from..from + size] else all[from..]
  {
  }

  /** The items of pages 1 to `n`, one after the other, as a client asks for them. */
  function ReadPages<T>(all: seq<T>, size: nat, n: nat): Option<seq<T>> {
    if n == 0 then Some([])
    else
      var before, page := ReadPages(all, size, n - 1), ListPage(all, NewRequest(n, size));
      if before.Some? && page.Some? then Some(before.value + page.value) else None
  }

  lemma PageExtends<T>(all: seq<T>, offset: nat, size: nat)
    ensures all[..Min(offset, |all|)] + Page(all, offset, size) == all[..Min(offset + size, |all|)]
  {
  }

  lemma {:induction false} PagesArePrefix<T>(all: seq<T>, size: nat, n: nat)
    requires 1 <= size <= 100 && |all| <= U32_MAX && n <= TotalPages(|all|, size)
    ensures ReadPages(all, size, n) == Some(all[..Min(n * size, |all|)])
  {
    hide TotalPages, Page, Offset;
    if n > 0 {
      PagesArePrefix(all, size, n - 1);
      OffsetFits(|all|, size, n);
      PageExtends(all, (n - 1) * size, size);
      assert n * size == (n - 1) * size + size;
    }
  }

  /** Reading every page of an unchanged listing never overflows and gives exactly the listing. */
  lemma PagesCover<T>(all: seq<T>, size: nat)
    requires 1 <= size <= 100 && |all| <= U32_MAX
    ensures ReadPages(all, size, TotalPages(|all|, size)) == Some(all)
  {
    hide TotalPages, ReadPages;
    LeastPages(|all|, size);
    PagesArePrefix(all, size, TotalPages(|all|, size));
    assert all[..|all|] == all;
  }
}
