/** Offset pagination as the admin listing does it: `offset = (page - 1) * limit`,
    at most `limit` rows from there, and `totalPages = ceil(count / limit)`. */
module Paging {

  /** The `{ count, rows, page, totalPages }` object the listing returns. */
  datatype Page<T> = Page(count: nat, rows: seq<T>, page: nat, totalPages: nat)

  /** `Math.ceil(n / d)`: the least number of blocks of `d` that hold `n`. */
  function CeilDiv(n: nat, d: nat): (q: nat)
    requires d >= 1
    ensures q * d >= n
    ensures q == 0 || (q - 1) * d < n
  {
    if n == 0 then 0 else 1 + CeilDiv(if n <= d then 0 else n - d, d)
  }

  function Offset(page: nat, limit: nat): nat
    requires page >= 1
  {
    (page - 1) * limit
  }

  function Min(a: nat, b: nat): nat
  {
    if a <= b then a else b
  }

  /** Page `page` of `ordered` with `limit` rows per page. */
  function Paginate<T>(ordered: seq<T>, page: nat, limit: nat): (r: Page<T>)
    requires page >= 1 && limit >= 1
    ensures r.count == |ordered| && r.page == page
    ensures r.totalPages == CeilDiv(|ordered|, limit)
    ensures |r.rows| <= limit
    ensures |r.rows| == Min(limit, if Offset(page, limit) <= |ordered| then |ordered| - Offset(page, limit) else 0)
    ensures forall i :: 0 <= i < |r.rows| ==> r.rows[i] == ordered[Offset(page, limit) + i]
  {
    var lo := Min(Offset(page, limit), |ordered|);
    var hi := Min(Offset(page, limit) + limit, |ordered|);
    Page(|ordered|, ordered[lo..hi], page, CeilDiv(|ordered|, limit))
  }

  /** The rows of pages 1 to `k`, one after the other. */
  function FirstPages<T>(ordered: seq<T>, limit: nat, k: nat): seq<T>
    requires limit >= 1
  {
    if k == 0 then [] else FirstPages(ordered, limit, k - 1) + Paginate(ordered, k, limit).rows
  }

  /** Pages 1 to `k` hold exactly the first `k * limit` rows (or all of them). */
  lemma {:induction false} FirstPagesArePrefix<T>(ordered: seq<T>, limit: nat, k: nat)
    requires limit >= 1
    ensures FirstPages(ordered, limit, k) == ordered[..Min(k * limit, |ordered|)]
  {
    if k > 0 {
      FirstPagesArePrefix(ordered, limit, k - 1);
      PageIsSlice(ordered, limit, k);
      SliceJoin(ordered, Min((k - 1) * limit, |ordered|), Min(k * limit, |ordered|));
    }
  }

  /** Page `k` is the slice between the first `(k - 1) * limit` and the first
      `k * limit` rows. */
  lemma PageIsSlice<T>(ordered: seq<T>, limit: nat, k: nat)
    requires limit >= 1 && k >= 1
    ensures (k - 1) * limit <= k * limit
    ensures Paginate(ordered, k, limit).rows == ordered[Min((k - 1) * limit, |ordered|)..Min(k * limit, |ordered|)]
  {
    MulSucc(k, limit);
  }

  lemma MulSucc(k: nat, limit: nat)
    requires k >= 1
    ensures k * limit == (k - 1) * limit + limit
  {
  }

  lemma SliceJoin<T>(s: seq<T>, i: nat, j: nat)
    requires i <= j <= |s|
    ensures s[..j] == s[..i] + s[i..j]
  {
  }

  /** Walking through every page visits every row once, in order: the page
      sizes add up to `count`. */
  lemma AllPagesCoverTheRows<T>(ordered: seq<T>, limit: nat)
    requires limit >= 1
    ensures FirstPages(ordered, limit, CeilDiv(|ordered|, limit)) == ordered
    ensures |FirstPages(ordered, limit, CeilDiv(|ordered|, limit))| == Paginate(ordered, 1, limit).count
  {
    FirstPagesArePrefix(ordered, limit, CeilDiv(|ordered|, limit));
  }

  /** A page after the last one is empty. */
  lemma PageAfterLastIsEmpty<T>(ordered: seq<T>, page: nat, limit: nat)
    requires limit >= 1 && page > CeilDiv(|ordered|, limit)
    ensures Paginate(ordered, page, limit).rows == []
  {
    var q := CeilDiv(|ordered|, limit);
    assert (page - 1) * limit >= q * limit by {
      assert page - 1 >= q;
      MulMono(q, page - 1, limit);
    }
  }

  lemma MulMono(a: nat, b: nat, c: nat)
    requires a <= b
    ensures a * c <= b * c
  {
  }

  /** 50 rows at 20 per page: 3 pages, and page 2 starts after 20 rows. */
  lemma FiftyRowsTwentyPerPage<T>(ordered: seq<T>)
    requires |ordered| == 50
    ensures Paginate(ordered, 2, 20).totalPages == 3
    ensures Offset(2, 20) == 20
    ensures Paginate(ordered, 2, 20).rows == ordered[20..40]
  {
    assert CeilDiv(50, 20) == 3 by {
      assert CeilDiv(10, 20) == 1;
      assert CeilDiv(30, 20) == 2;
    }
  }
}
