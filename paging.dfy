/** The page window of `list_items` in division/entry.py: the matched entries
    are numbered 0 .. count-1; without a page all are listed, and with a page
    only those inside that page's window, with the previous/next arrows. */
module Paging {
  import opened Common

  /** `ceil(a / b)` for a positive divisor. */
  function CeilDiv(a: nat, b: int): (r: nat)
    requires b > 0
    ensures a <= r * b
    ensures r == 0 || (r - 1) * b < a
  {
    var q := (a + b - 1) / b;
    var m := (a + b - 1) % b;
    assert a + b - 1 == q * b + m && 0 <= m < b;
    assert (q - 1) * b == q * b - b;
    q
  }

  function Max(a: int, b: int): int { if a < b then b else a }
  function Min(a: int, b: int): int { if a < b then a else b }

  /** The integers `lo, lo+1, …, hi-1`. */
  function Range(lo: int, hi: int): (r: seq<int>)
    ensures |r| == if lo < hi then hi - lo else 0
    ensures forall k :: 0 <= k < |r| ==> r[k] == lo + k
    ensures forall i :: i in r <==> lo <= i < hi
  {
    if lo < hi then
      var r := seq(hi - lo, k requires 0 <= k < hi - lo => lo + k);
      assert forall i :: i in r <==> lo <= i < hi by {
        forall i | lo <= i < hi ensures i in r {
          assert r[i - lo] == i;
        }
      }
      r
    else []
  }

  lemma RangeSnoc(lo: int, hi: int)
    requires lo <= hi
    ensures Range(lo, hi + 1) == Range(lo, hi) + [hi]
  {
  }

  /** The page actually shown: a page past the last one is the last one. */
  function ClampPage(page: int, pageCount: nat): int {
    if page > pageCount then pageCount else page
  }

  /** The entries the page window shows: those in `range(left, right)` that
      exist, with `left, right` the bounds of the clamped page. */
  function Window(count: nat, perPage: int, page: int): (r: seq<int>)
    requires perPage > 0
    ensures forall i :: i in r <==>
      var p := ClampPage(page, CeilDiv(count, perPage));
      (p - 1) * perPage <= i < p * perPage && 0 <= i < count
  {
    var p := ClampPage(page, CeilDiv(count, perPage));
    Range(Max((p - 1) * perPage, 0), Min(p * perPage, count))
  }

  /** What a listing shows: the entry numbers in order, and the previous and
      next arrows' states when a page was asked for. */
  datatype Listing = Listing(shown: seq<int>, arrows: Option<(bool, bool)>)

  /** The display loop of `list_items`. The previous arrow is enabled unless
      the clamped page is the first, the next arrow unless it is the last. */
  method ListItems(count: nat, perPage: int, page: Option<int>) returns (r: Listing)
    requires perPage > 0
    ensures page.None? ==> r == Listing(Range(0, count), None)
    ensures page.Some? ==>
      var pageCount := CeilDiv(count, perPage);
      var p := ClampPage(page.value, pageCount);
      r == Listing(Window(count, perPage, page.value), Some((p != 1, p != pageCount)))
  {
    if page.None? {
      var shown := ShowRange(0, count, count);
      return Listing(shown, None);
    }
    var pageCount := CeilDiv(count, perPage);
    var p := page.value;
    if p > pageCount {
      p := pageCount;
    }
    var left, right := (p - 1) * perPage, p * perPage;
    var shown := ShowRange(left, right, count);
    r := Listing(shown, Some((p != 1, p != pageCount)));
  }

  /** `for i in range(left, right): if 0 <= i < count: show(i)`. */
  method ShowRange(left: int, right: int, count: nat) returns (shown: seq<int>)
    ensures shown == Range(Max(left, 0), Min(right, count))
  {
    shown := [];
    var i := left;
    while i < right
      invariant left <= i && (i <= right || i == left)
      invariant shown == Range(Max(left, 0), Min(i, count))
    {
      if 0 <= i < count {
        RangeSnoc(Max(left, 0), i);
        shown := shown + [i];
      }
      i := i + 1;
    }
  }

  lemma MulMono(a: int, b: int, c: int)
    requires c > 0 && a < b
    ensures a * c < b * c
  {
    assert b * c - a * c == (b - a) * c;
  }

  /** Every entry is on exactly one page: entry `i` is shown on page `p`
      (among the pages 1 .. page_count) exactly when `p` is `i / perPage + 1`,
      and that page exists. */
  lemma {:induction false} EachEntryOnOnePage(count: nat, perPage: int, i: int, p: int)
    requires perPage > 0 && 0 <= i < count
    requires 1 <= p <= CeilDiv(count, perPage)
    ensures 1 <= i / perPage + 1 <= CeilDiv(count, perPage)
    ensures i in Window(count, perPage, p) <==> p == i / perPage + 1
  {
    var q := i / perPage;
    var n := CeilDiv(count, perPage);
    assert i == q * perPage + i % perPage;
    if q + 1 > n {
      MulMono(n, q, perPage);
      assert false;
    }
    if p - 1 < q {
      MulMono(p, q + 1, perPage);
      assert p * perPage <= q * perPage;
    }
    if q < p - 1 {
      assert (q + 1) * perPage == q * perPage + perPage;
      if q + 1 < p - 1 {
        MulMono(q + 1, p - 1, perPage);
      }
    }
    if p == q + 1 {
      assert (p - 1) * perPage == q * perPage;
      assert p * perPage == q * perPage + perPage;
    }
  }

  /** A page shows at most `perPage` entries, and a page within range shows at
      least one. */
  lemma WindowSize(count: nat, perPage: int, p: int)
    requires perPage > 0
    ensures |Window(count, perPage, p)| <= perPage
    ensures 1 <= p <= CeilDiv(count, perPage) ==> |Window(count, perPage, p)| >= 1
  {
    var pc := ClampPage(p, CeilDiv(count, perPage));
    assert pc * perPage - (pc - 1) * perPage == perPage;
    if 1 <= p <= CeilDiv(count, perPage) {
      MulMono(p - 1, CeilDiv(count, perPage), perPage);
      assert (p - 1) * perPage >= 0 by { MulMono(0, p, perPage); }
    }
  }
}
