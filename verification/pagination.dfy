/** One-based page slicing of a listing with a fixed page size, with the page
    number resolved the way Django's `Paginator.get_page` resolves the `page`
    query parameter (no orphans, an empty first page allowed). */
module Pagination {
  import opened Entities

  function Min(a: int, b: int): int { if a <= b then a else b }

  /** The number of pages of a listing of `n` items. An empty listing still
      has one, empty, page. */
  function NumPages(n: nat, size: nat): (c: nat)
    requires size > 0
    ensures c >= 1
    ensures n > 0 ==> (c - 1) * size < n <= c * size
    ensures n == 0 ==> c == 1
  {
    if n == 0 then 1 else (n + size - 1) / size
  }

  /** The page a request receives. `None` stands for a `page` parameter that
      is missing or not an integer, which means page 1; a number below 1 or
      past the last page means the last page. */
  function PageNumber(requested: Option<int>, n: nat, size: nat): (k: nat)
    requires size > 0
    ensures 1 <= k <= NumPages(n, size)
    ensures requested.Some? && 1 <= requested.value <= NumPages(n, size) ==> k == requested.value
  {
    match requested
    case None => 1
    case Some(number) => if 1 <= number <= NumPages(n, size) then number else NumPages(n, size)
  }

  /** Position in the listing of the first item of page `k`. */
  function PageStart(k: nat, size: nat): nat
    requires k >= 1
  {
    (k - 1) * size
  }

  /** `r` is the page `requested` of `xs`: the items from the resolved page's
      start on, in listing order, as many as fit on a page. */
  ghost predicate IsPageOf<T>(r: seq<T>, xs: seq<T>, requested: Option<int>, size: nat)
    requires size > 0
  {
    var start := PageStart(PageNumber(requested, |xs|, size), size);
    && start <= |xs|
    && |r| == Min(size, |xs| - start)
    && forall i :: 0 <= i < |r| ==> r[i] == xs[start + i]
  }

  /** Every page from 1 to the page count starts inside the listing. */
  lemma StartWithin(n: nat, k: nat, size: nat)
    requires size > 0 && 1 <= k <= NumPages(n, size)
    ensures PageStart(k, size) <= n
    ensures n > 0 ==> PageStart(k, size) < n
  {
    MulMono(NumPages(n, size) - 1, k - 1, size);
  }

  /** Page `k` of a listing, for `k` from 1 to the page count. */
  function PageAt<T>(xs: seq<T>, k: nat, size: nat): (r: seq<T>)
    requires size > 0 && 1 <= k <= NumPages(|xs|, size)
    ensures PageStart(k, size) <= |xs|
    ensures |r| == Min(size, |xs| - PageStart(k, size))
    ensures forall i :: 0 <= i < |r| ==> r[i] == xs[PageStart(k, size) + i]
  {
    StartWithin(|xs|, k, size);
    xs[PageStart(k, size)..Min(PageStart(k, size) + size, |xs|)]
  }

  /** The page a request for page `requested` receives. It is never empty
      unless the whole listing is. */
  function Page<T>(xs: seq<T>, requested: Option<int>, size: nat): (r: seq<T>)
    requires size > 0
    ensures |r| <= size
    ensures |xs| > 0 ==> |r| > 0
    ensures IsPageOf(r, xs, requested, size)
  {
    var k := PageNumber(requested, |xs|, size);
    StartWithin(|xs|, k, size);
    PageAt(xs, k, size)
  }

  /** With at least `size` items the first page is full, whether page 1 is
      asked for or no page is named. */
  lemma FirstPageFull<T>(xs: seq<T>, size: nat)
    requires 0 < size <= |xs|
    ensures Page(xs, Some(1), size) == xs[..size]
    ensures Page(xs, None, size) == xs[..size]
  {
  }

  /** A listing that fits on one page is shown whole on the first page. */
  lemma OnePageListing<T>(xs: seq<T>, size: nat)
    requires 0 < size && |xs| <= size
    ensures NumPages(|xs|, size) == 1
    ensures Page(xs, None, size) == xs
    ensures Page(xs, Some(1), size) == xs
  {
    if |xs| > 0 {
      DivModUnique(|xs| + size - 1, size, 1, |xs| - 1);
    }
  }

  /** With more than one but fewer than two pages of items, page 2 holds the remainder. */
  lemma SecondPageRemainder<T>(xs: seq<T>, size: nat)
    requires 0 < size < |xs| < 2 * size
    ensures |Page(xs, Some(2), size)| == |xs| % size
    ensures Page(xs, Some(2), size) == xs[size..]
  {
    ModOfOneAndABit(|xs|, size);
    DivModUnique(|xs| + size - 1, size, 2, |xs| - size - 1);
    assert NumPages(|xs|, size) == 2;
  }

  lemma ModOfOneAndABit(n: nat, size: nat)
    requires 0 < size <= n < 2 * size
    ensures n % size == n - size
  {
    DivModUnique(n, size, 1, n - size);
  }

  /** Euclidean division is determined by quotient and remainder. */
  lemma DivModUnique(n: int, size: int, q: int, r: int)
    requires size > 0 && 0 <= r < size && n == q * size + r
    ensures n / size == q && n % size == r
  {
    var q', r' := n / size, n % size;
    var d := q - q';
    assert d * size == q * size - q' * size;
    assert d * size == r' - r;
    MulAwayFromZero(d, size);
  }

  lemma MulAwayFromZero(d: int, size: int)
    requires size > 0
    ensures d >= 1 ==> d * size >= size
    ensures d <= -1 ==> d * size <= -size
  {
    if d >= 1 {
      assert d * size == (d - 1) * size + size;
    } else if d <= -1 {
      assert d * size == (d + 1) * size - size;
    }
  }

  lemma MulMono(a: nat, b: nat, size: nat)
    requires a >= b
    ensures a * size >= b * size
  {
  }

  lemma MulCancel(a: nat, b: nat, size: nat)
    ensures a * size < b * size ==> a < b
  {
    if a >= b {
      MulMono(a, b, size);
    }
  }

  /** A number below 1 or past the last page gets the last page, which holds
      the listing's tail from that page's start. */
  lemma OutOfRangeGetsLastPage<T>(xs: seq<T>, number: int, size: nat)
    requires size > 0
    requires number < 1 || number > NumPages(|xs|, size)
    ensures Page(xs, Some(number), size) == Page(xs, Some(NumPages(|xs|, size)), size)
    ensures Page(xs, Some(number), size) == xs[PageStart(NumPages(|xs|, size), size)..]
  {
    var c := NumPages(|xs|, size);
    StartWithin(|xs|, c, size);
    assert |xs| <= c * size;
    assert c * size == PageStart(c, size) + size;
  }

  /** The last page holds `n mod size` items, or a full page when that is zero. */
  lemma LastPageSize<T>(xs: seq<T>, size: nat)
    requires size > 0 && |xs| > 0
    ensures |Page(xs, Some(NumPages(|xs|, size)), size)| == if |xs| % size == 0 then size else |xs| % size
  {
    var n, c := |xs|, NumPages(|xs|, size);
    var q, r := n / size, n % size;
    assert n == q * size + r && 0 <= r < size;
    if r == 0 {
      assert (n + size - 1) == q * size + (size - 1);
      DivModUnique(n + size - 1, size, q, size - 1);
      assert c == q;
    } else {
      assert (n + size - 1) == (q + 1) * size + (r - 1);
      DivModUnique(n + size - 1, size, q + 1, r - 1);
      assert c == q + 1;
    }
    assert PageStart(c, size) == (c - 1) * size;
  }

  /** The item at position `j` is on page `j / size + 1`, at position `j % size`. */
  lemma ItemOnItsPage<T>(xs: seq<T>, j: nat, size: nat)
    requires size > 0 && j < |xs|
    ensures j / size + 1 <= NumPages(|xs|, size)
    ensures j % size < |Page(xs, Some(j / size + 1), size)|
    ensures Page(xs, Some(j / size + 1), size)[j % size] == xs[j]
  {
    var q, r, c := j / size, j % size, NumPages(|xs|, size);
    assert j == q * size + r;
    MulCancel(q, c, size);
    assert PageStart(q + 1, size) == q * size;
  }

  /** Every listed item is on some page, and on the first page when the
      listing fits on one. */
  lemma ListedItemOnSomePage<T>(xs: seq<T>, x: T, size: nat)
    requires size > 0 && x in xs
    ensures exists k :: 1 <= k <= NumPages(|xs|, size) && x in Page(xs, Some(k), size)
    ensures |xs| <= size ==> x in Page(xs, None, size)
  {
    var j :| 0 <= j < |xs| && xs[j] == x;
    ItemOnItsPage(xs, j, size);
    var k := j / size + 1;
    assert 1 <= k <= NumPages(|xs|, size) && x in Page(xs, Some(k), size) by {
      assert Page(xs, Some(k), size)[j % size] == x;
    }
    if |xs| <= size {
      OnePageListing(xs, size);
    }
  }

  /** Pages 1 to `count`, in order. */
  function Pages<T>(xs: seq<T>, count: nat, size: nat): (ps: seq<seq<T>>)
    requires size > 0 && count <= NumPages(|xs|, size)
    ensures |ps| == count
  {
    if count == 0 then [] else Pages(xs, count - 1, size) + [PageAt(xs, count, size)]
  }

  function Flatten<T>(ps: seq<seq<T>>): seq<T> {
    if |ps| == 0 then [] else Flatten(ps[..|ps| - 1]) + ps[|ps| - 1]
  }

  /** Reading the pages 1 to `count` in order yields the listing's first
      `count * size` items, with no item missing or repeated. */
  lemma {:induction false} PagesPrefix<T>(xs: seq<T>, count: nat, size: nat)
    requires size > 0 && count <= NumPages(|xs|, size)
    ensures Flatten(Pages(xs, count, size)) == xs[..Min(count * size, |xs|)]
    decreases count
  {
    if count > 0 {
      var ps := Pages(xs, count, size);
      assert ps[..count - 1] == Pages(xs, count - 1, size);
      PagesPrefix(xs, count - 1, size);
      var start := PageStart(count, size);
      assert count * size == start + size;
      StartWithin(|xs|, count, size);
      var p := PageAt(xs, count, size);
      assert p == xs[start..Min(count * size, |xs|)];
      assert Min((count - 1) * size, |xs|) == start;
      assert xs[..start] + xs[start..Min(count * size, |xs|)] == xs[..Min(count * size, |xs|)];
    }
  }

  /** Concatenating all pages reproduces the whole listing. */
  lemma PagesCoverListing<T>(xs: seq<T>, size: nat)
    requires size > 0
    ensures Flatten(Pages(xs, NumPages(|xs|, size), size)) == xs
  {
    PagesPrefix(xs, NumPages(|xs|, size), size);
    assert xs[..|xs|] == xs;
  }

  /** Every page a request can receive is one of the pages that cover the listing. */
  lemma PageIsOneOfPages<T>(xs: seq<T>, requested: Option<int>, size: nat)
    requires size > 0
    ensures var k := PageNumber(requested, |xs|, size);
      Page(xs, requested, size) == Pages(xs, NumPages(|xs|, size), size)[k - 1]
  {
    var k := PageNumber(requested, |xs|, size);
    PagesAt(xs, NumPages(|xs|, size), k, size);
  }

  lemma {:induction false} PagesAt<T>(xs: seq<T>, count: nat, k: nat, size: nat)
    requires size > 0 && 1 <= k <= count <= NumPages(|xs|, size)
    ensures Pages(xs, count, size)[k - 1] == PageAt(xs, k, size)
    decreases count
  {
    if k < count {
      PagesAt(xs, count - 1, k, size);
    }
  }
}
