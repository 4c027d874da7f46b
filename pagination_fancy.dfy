/**
 * components/home/PaginationFancy.tsx: the home page's numbered pagination.
 * `getPages` keeps the first page, the last page and a window of two pages
 * on each side of the current one, then walks the kept pages putting an
 * ellipsis in every gap, except that a gap of one page is filled with it.
 */
module PaginationFancy {
  import opened Wrappers

  /** Pages on each side of the current one that are always kept (`delta`). */
  const Delta: int := 2

  /** An entry of the page list: a page number or `"..."`. */
  datatype PageItem = Page(n: int) | Dots

  /** The first loop's test: page `i` is kept. */
  predicate Kept(i: int, current: int, total: int) {
    i == 1 || i == total || (current - Delta <= i && i <= current + Delta)
  }

  /** The kept pages among 1..n, in increasing order (`range` after the first loop). */
  function KeptUpTo(n: nat, current: int, total: int): seq<int> {
    if n == 0 then []
    else KeptUpTo(n - 1, current, total) + (if Kept(n, current, total) then [n] else [])
  }

  predicate Increasing(r: seq<int>) {
    forall i, j :: 0 <= i < j < |r| ==> r[i] < r[j]
  }

  /** What goes between two consecutive kept pages `last` and `i`. */
  function Gap(last: int, i: int): seq<PageItem> {
    if i - last == 2 then [Page(last + 1)]
    else if i - last > 2 then [Dots]
    else []
  }

  /** `rangeWithDots` after the second loop has walked the pages `r`. */
  function WithDots(r: seq<int>): seq<PageItem> {
    if r == [] then []
    else
      var p := r[..|r| - 1];
      WithDots(p) + (if p == [] then [] else Gap(p[|p| - 1], r[|r| - 1])) + [Page(r[|r| - 1])]
  }

  /** The list `getPages(current, total)` returns. */
  function Pages(current: int, total: int): seq<PageItem> {
    WithDots(KeptUpTo(if total < 0 then 0 else total, current, total))
  }

  /** `getPages(current, total)`: the two loops, pushing into `range` and `rangeWithDots`. */
  method GetPages(current: int, total: int) returns (rangeWithDots: seq<PageItem>)
    ensures rangeWithDots == Pages(current, total)
  {
    var range: seq<int> := [];
    var i := 1;
    while i <= total
      invariant 1 <= i <= (if total < 0 then 0 else total) + 1
      invariant range == KeptUpTo(i - 1, current, total)
    {
      if i == 1 || i == total || (i >= current - Delta && i <= current + Delta) {
        range := range + [i];
      }
      i := i + 1;
    }
    rangeWithDots := [];
    var last: Option<int> := None;
    var k := 0;
    while k < |range|
      invariant 0 <= k <= |range|
      invariant rangeWithDots == WithDots(range[..k])
      invariant last == (if k == 0 then None else Some(range[k - 1]))
    {
      WithDotsPrefixStep(range, k);
      rangeWithDots := PushPage(rangeWithDots, last, range[k]);
      last := Some(range[k]);
      k := k + 1;
    }
    assert range[..|range|] == range;
  }

  /** The second loop's body for page `i`: the gap filler or `"..."` after `last` if any, then `i`. */
  method PushPage(rangeWithDots: seq<PageItem>, last: Option<int>, i: int) returns (r: seq<PageItem>)
    ensures r == rangeWithDots + (if last.None? then [] else Gap(last.value, i)) + [Page(i)]
  {
    r := rangeWithDots;
    if last.Some? {
      if i - last.value == 2 {
        r := r + [Page(last.value + 1)];
      } else if i - last.value > 2 {
        r := r + [Dots];
      }
    }
    r := r + [Page(i)];
  }

  /** The second loop's step: one more page of `range` adds its gap and itself. */
  lemma WithDotsPrefixStep(range: seq<int>, k: nat)
    requires k < |range|
    ensures WithDots(range[..k + 1]) ==
      WithDots(range[..k]) + (if k == 0 then [] else Gap(range[k - 1], range[k])) + [Page(range[k])]
  {
    var r := range[..k + 1];
    assert r[..|r| - 1] == range[..k];
    assert r[|r| - 1] == range[k];
  }

  /** The first loop keeps exactly the pages in [1, n] that pass the test, in increasing order. */
  lemma {:induction false} KeptUpToFacts(n: nat, current: int, total: int)
    ensures Increasing(KeptUpTo(n, current, total))
    ensures forall x :: x in KeptUpTo(n, current, total) <==> 1 <= x <= n && Kept(x, current, total)
  {
    if n > 0 {
      var p := KeptUpTo(n - 1, current, total);
      KeptUpToFacts(n - 1, current, total);
      if Kept(n, current, total) {
        var r := p + [n];
        forall i, j | 0 <= i < j < |r| ensures r[i] < r[j] {
          if j < |p| {
            assert r[i] == p[i] && r[j] == p[j];
          } else {
            assert r[i] == p[i] && p[i] in p;
          }
        }
      }
    }
  }

  /** Increasing sequences stay increasing without their last element. */
  lemma InitIncreasing(r: seq<int>)
    requires Increasing(r) && r != []
    ensures Increasing(r[..|r| - 1])
    ensures forall j :: 0 <= j < |r| - 1 ==> r[j] < r[|r| - 1]
  {
  }

  /** The entries of `WithDots` for `r`: those for `r` without its last page, the gap and the last page. */
  lemma WithDotsSnoc(r: seq<int>)
    requires r != []
    ensures var p := r[..|r| - 1];
      WithDots(r) == WithDots(p) + (if p == [] then [] else Gap(p[|p| - 1], r[|r| - 1])) + [Page(r[|r| - 1])]
  {
  }

  /** The list starts with the first kept page and ends with the last one. */
  lemma {:induction false} WithDotsEnds(r: seq<int>)
    requires r != []
    ensures |WithDots(r)| > 0
    ensures WithDots(r)[0] == Page(r[0])
    ensures WithDots(r)[|WithDots(r)| - 1] == Page(r[|r| - 1])
  {
    var p := r[..|r| - 1];
    WithDotsSnoc(r);
    if p != [] {
      WithDotsEnds(p);
      assert p[0] == r[0];
    }
  }

  /** Every kept page is listed. */
  lemma {:induction false} WithDotsListsKept(r: seq<int>)
    ensures forall x :: x in r ==> Page(x) in WithDots(r)
  {
    if r != [] {
      var p := r[..|r| - 1];
      WithDotsSnoc(r);
      WithDotsListsKept(p);
      assert r == p + [r[|r| - 1]];
    }
  }

  /** A listed page is kept, or lies between two kept pages one apart from it. */
  predicate ListedFromKept(w: seq<PageItem>, r: seq<int>) {
    forall k :: 0 <= k < |w| && w[k].Page? ==> (w[k].n in r || (w[k].n - 1 in r && w[k].n + 1 in r))
  }

  /** One step of the second loop keeps `ListedFromKept`. */
  lemma ListedAppend(w0: seq<PageItem>, p: seq<int>, i: int)
    requires ListedFromKept(w0, p)
    ensures ListedFromKept(w0 + (if p == [] then [] else Gap(p[|p| - 1], i)) + [Page(i)], p + [i])
  {
    var g := if p == [] then [] else Gap(p[|p| - 1], i);
    var w := w0 + g + [Page(i)];
    var r := p + [i];
    forall k | 0 <= k < |w| && w[k].Page? ensures w[k].n in r || (w[k].n - 1 in r && w[k].n + 1 in r) {
      if k < |w0| {
        assert w[k] == w0[k];
        assert w0[k].n in p || (w0[k].n - 1 in p && w0[k].n + 1 in p);
      } else if k < |w0| + |g| {
        assert w[k] == Page(p[|p| - 1] + 1);
        assert p[|p| - 1] in r;
      }
    }
  }

  lemma {:induction false} WithDotsOnlyKept(r: seq<int>)
    ensures ListedFromKept(WithDots(r), r)
  {
    if r != [] {
      var p := r[..|r| - 1];
      WithDotsSnoc(r);
      WithDotsOnlyKept(p);
      ListedAppend(WithDots(p), p, r[|r| - 1]);
      assert p + [r[|r| - 1]] == r;
    }
  }

  /** Every listed page number lies in [lo, hi]. */
  predicate PagesWithin(w: seq<PageItem>, lo: int, hi: int) {
    forall k :: 0 <= k < |w| && w[k].Page? ==> lo <= w[k].n <= hi
  }

  lemma {:induction false} WithDotsBounds(r: seq<int>)
    requires Increasing(r) && r != []
    ensures PagesWithin(WithDots(r), r[0], r[|r| - 1])
  {
    var p := r[..|r| - 1];
    var i := r[|r| - 1];
    InitIncreasing(r);
    WithDotsSnoc(r);
    var w0 := WithDots(p);
    var g := if p == [] then [] else Gap(p[|p| - 1], i);
    var w := WithDots(r);
    if p != [] {
      WithDotsBounds(p);
      assert p[0] == r[0];
      assert p[|p| - 1] in p;
    }
    forall k | 0 <= k < |w| && w[k].Page? ensures r[0] <= w[k].n <= i {
      if k < |w0| {
        assert w[k] == w0[k];
      } else if k < |w0| + |g| {
        assert w[k] == Page(p[|p| - 1] + 1);
      }
    }
  }

  /** The listed page numbers are strictly increasing. */
  predicate PagesIncreasing(w: seq<PageItem>) {
    forall a, b :: 0 <= a < b < |w| && w[a].Page? && w[b].Page? ==> w[a].n < w[b].n
  }

  lemma {:induction false} WithDotsIncreasing(r: seq<int>)
    requires Increasing(r)
    ensures PagesIncreasing(WithDots(r))
  {
    if r != [] {
      var p := r[..|r| - 1];
      var i := r[|r| - 1];
      InitIncreasing(r);
      WithDotsSnoc(r);
      WithDotsIncreasing(p);
      var w0 := WithDots(p);
      var g := if p == [] then [] else Gap(p[|p| - 1], i);
      var w := WithDots(r);
      if p != [] {
        WithDotsBounds(p);
        assert p[|p| - 1] in p;
      }
      var t := g + [Page(i)];
      assert w == w0 + t;
      assert p != [] ==> forall x :: 0 <= x < |t| && t[x].Page? ==> t[x].n > p[|p| - 1];
      assert forall x, y :: 0 <= x < y < |t| && t[x].Page? && t[y].Page? ==> t[x].n < t[y].n;
      forall a, b | 0 <= a < b < |w| && w[a].Page? && w[b].Page? ensures w[a].n < w[b].n {
        if b < |w0| {
          assert w[a] == w0[a] && w[b] == w0[b];
        } else if a < |w0| {
          assert w[a] == w0[a] && w[b] == t[b - |w0|];
        } else {
          assert w[a] == t[a - |w0|] && w[b] == t[b - |w0|];
        }
      }
    }
  }

  /**
   * Neighbouring entries: two pages side by side are consecutive numbers,
   * and an ellipsis is never first or last and always sits between two
   * pages more than two apart (so never next to another ellipsis).
   */
  predicate NeighboursOk(w: seq<PageItem>) {
    AdjacentConsecutive(w) && DotsFlanked(w)
  }

  predicate AdjacentConsecutive(w: seq<PageItem>) {
    forall k :: 0 <= k < |w| - 1 && w[k].Page? && w[k + 1].Page? ==> w[k + 1].n == w[k].n + 1
  }

  predicate DotsFlanked(w: seq<PageItem>) {
    forall k :: 0 <= k < |w| && w[k].Dots? ==>
      0 < k < |w| - 1 && w[k - 1].Page? && w[k + 1].Page? && w[k + 1].n - w[k - 1].n > 2
  }

  /** One step of the second loop keeps `AdjacentConsecutive`. */
  lemma AdjacentAppend(w0: seq<PageItem>, g: seq<PageItem>, last: int, i: int)
    requires AdjacentConsecutive(w0)
    requires w0 == [] ==> g == []
    requires w0 != [] ==> w0[|w0| - 1] == Page(last) && last < i && g == Gap(last, i)
    ensures AdjacentConsecutive(w0 + g + [Page(i)])
  {
    var tail := g + [Page(i)];
    var w := w0 + tail;
    assert w == w0 + g + [Page(i)];
    forall k | 0 <= k < |w| - 1 && w[k].Page? && w[k + 1].Page? ensures w[k + 1].n == w[k].n + 1 {
      if k + 1 < |w0| {
        assert w[k] == w0[k] && w[k + 1] == w0[k + 1];
      } else if k + 1 == |w0| {
        assert w[k] == Page(last) && w[k + 1] == tail[0];
      } else {
        assert w[k] == tail[k - |w0|] && w[k + 1] == tail[k + 1 - |w0|];
      }
    }
  }

  /** One step of the second loop keeps `DotsFlanked`. */
  lemma DotsAppend(w0: seq<PageItem>, g: seq<PageItem>, last: int, i: int)
    requires DotsFlanked(w0)
    requires w0 == [] ==> g == []
    requires w0 != [] ==> w0[|w0| - 1] == Page(last) && last < i && g == Gap(last, i)
    ensures DotsFlanked(w0 + g + [Page(i)])
  {
    var tail := g + [Page(i)];
    var w := w0 + tail;
    assert w == w0 + g + [Page(i)];
    forall k | 0 <= k < |w| && w[k].Dots? ensures
      0 < k < |w| - 1 && w[k - 1].Page? && w[k + 1].Page? && w[k + 1].n - w[k - 1].n > 2
    {
      if k < |w0| {
        assert w[k] == w0[k] && w[k - 1] == w0[k - 1];
        if k + 1 < |w0| {
          assert w[k + 1] == w0[k + 1];
        }
      } else {
        assert w[k] == tail[k - |w0|];
        assert k == |w0| && g == [Dots];
        assert w[k - 1] == Page(last) && w[k + 1] == Page(i);
      }
    }
  }

  lemma {:induction false} WithDotsNeighbours(r: seq<int>)
    requires Increasing(r)
    ensures NeighboursOk(WithDots(r))
  {
    if r != [] {
      var p := r[..|r| - 1];
      var i := r[|r| - 1];
      InitIncreasing(r);
      WithDotsSnoc(r);
      WithDotsNeighbours(p);
      var w0 := WithDots(p);
      var g := if p == [] then [] else Gap(p[|p| - 1], i);
      var last := if p == [] then 0 else p[|p| - 1];
      if p != [] {
        WithDotsEnds(p);
      } else {
        assert w0 == [];
      }
      AdjacentAppend(w0, g, last, i);
      DotsAppend(w0, g, last, i);
    }
  }

  /**
   * The page list of `getPages(current, total)`: numbers strictly
   * increasing within [1, total]; pages 1 and total present; every page of
   * the window [current-2, current+2] inside [1, total] present; a page is
   * listed only if kept or if it fills a one-page gap between kept pages;
   * side-by-side pages are consecutive; and an ellipsis stands exactly where
   * two kept pages are more than two apart, never first, last or next to
   * another one.
   */
  lemma PagesFacts(current: int, total: int)
    ensures PagesIncreasing(Pages(current, total))
    ensures PagesWithin(Pages(current, total), 1, total)
    ensures total >= 1 ==> Page(1) in Pages(current, total) && Page(total) in Pages(current, total)
    ensures forall x :: current - Delta <= x <= current + Delta && 1 <= x <= total ==> Page(x) in Pages(current, total)
    ensures ListedFromKept(Pages(current, total), KeptUpTo(if total < 0 then 0 else total, current, total))
    ensures NeighboursOk(Pages(current, total))
  {
    var n: nat := if total < 0 then 0 else total;
    var r := KeptUpTo(n, current, total);
    var w := WithDots(r);
    assert Pages(current, total) == w;
    KeptUpToFacts(n, current, total);
    WithDotsOnlyKept(r);
    WithDotsIncreasing(r);
    WithDotsNeighbours(r);
    PagesWithinTotal(r, total);
    PagesPresent(current, total, r);
  }

  lemma PagesWithinTotal(r: seq<int>, total: int)
    requires Increasing(r)
    requires forall x :: x in r ==> 1 <= x <= total
    ensures PagesWithin(WithDots(r), 1, total)
  {
    if r != [] {
      WithDotsBounds(r);
      assert r[0] in r && r[|r| - 1] in r;
    }
  }

  lemma PagesPresent(current: int, total: int, r: seq<int>)
    requires forall x :: x in r <==> 1 <= x <= total && Kept(x, current, total)
    ensures total >= 1 ==> Page(1) in WithDots(r) && Page(total) in WithDots(r)
    ensures forall x :: current - Delta <= x <= current + Delta && 1 <= x <= total ==> Page(x) in WithDots(r)
  {
    WithDotsListsKept(r);
    if total >= 1 {
      assert 1 in r && total in r;
    }
    forall x | current - Delta <= x <= current + Delta && 1 <= x <= total ensures Page(x) in WithDots(r) {
      assert x in r;
    }
  }

  /** `PaginationFancy` renders nothing for at most one page; otherwise the two arrows and the list. */
  datatype Rendered = Rendered(prev: int, prevDisabled: bool, pages: seq<PageItem>, next: int, nextDisabled: bool)

  function Render(current: int, total: int): (r: Option<Rendered>)
    ensures r.None? <==> total <= 1
    ensures r.Some? ==> r.value.pages == Pages(current, total)
  {
    if total <= 1 then None
    else Some(Rendered(Max(1, current - 1), current == 1, Pages(current, total),
                       Min(total, current + 1), current == total))
  }

  /**
   * The arrows: "previous" goes to max(1, current-1) and "next" to
   * min(total, current+1), so both stay in [1, total] when current is in
   * range, and an arrow is disabled exactly when it would point at the
   * current page. Out of range the arrows still clamp but stay enabled:
   * past the end "next" leads back to the last page.
   */
  lemma ArrowsClamped(current: int, total: int)
    requires total > 1
    ensures var r := Render(current, total).value;
      && 1 <= r.prev && r.next <= total
      && (1 <= current <= total ==>
            && 1 <= r.prev <= current && current <= r.next <= total
            && (r.prevDisabled <==> r.prev == current)
            && (r.nextDisabled <==> r.next == current)
            && (!r.prevDisabled ==> r.prev == current - 1)
            && (!r.nextDisabled ==> r.next == current + 1))
      && (current > total ==> r.next == total && !r.nextDisabled)
      && (current < 1 ==> r.prev == 1 && !r.prevDisabled)
  {
  }
}
