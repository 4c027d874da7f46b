/**
 * app/page.tsx: the home page lists manga by last update, a page at a time,
 * each with its three latest chapters. It has its own copies of the badge
 * rule and of the relative time label, which differ from lib/time.ts.
 */
module HomePage {
  import opened Wrappers
  import opened Seqs
  import opened StableSort
  import Time
  import opened Pagination

  /** A publish date as this page reads it: missing or empty, not a valid date, or valid. */
  datatype DateInput = Missing | Invalid | At(elapsed: int)

  /** This page's `isNewWithin24h`: within a day, the day itself included. */
  predicate IsNewWithin24h(d: DateInput) {
    d.At? && d.elapsed <= Time.DayMs
  }

  /** This page's `timeAgo`: seconds, minutes, hours, then days without an upper bound. */
  function TimeAgo(d: DateInput): Time.Ago {
    if !d.At? then Time.Dash
    else
      var sec := d.elapsed / 1000;
      if sec < 60 then Time.Secs(sec)
      else
        var min := sec / 60;
        if min < 60 then Time.Mins(min)
        else
          var hr := min / 60;
          if hr < 24 then Time.Hours(hr)
          else Time.Days(hr / 24)
  }

  /**
   * The two copies agree below a week and part ways after: this page keeps
   * counting days where lib/time.ts moves on to weeks, months and years;
   * and at exactly one day this page still says "New!" where lib/time.ts
   * does not.
   */
  lemma CopiesCompared(e: int)
    ensures e < 7 * Time.DayMs ==> TimeAgo(At(e)) == Time.TimeAgo(Some(e))
    ensures e >= Time.DayMs ==> TimeAgo(At(e)) == Time.Days(e / Time.DayMs)
    ensures IsNewWithin24h(At(e)) <==> Time.IsNewWithin24h(Some(e)) || e == Time.DayMs
  {
    Time.TimeAgoBuckets(e);
    var sec := e / 1000;
    assert sec / 60 / 60 / 24 == e / Time.DayMs;
  }

  /** Missing and invalid dates give "-" and no badge. */
  lemma NoDateNoBadge(d: DateInput)
    requires !d.At?
    ensures !IsNewWithin24h(d) && TimeAgo(d) == Time.Dash
  {
  }

  // ---------------------------------------------------------------------
  // Paging.

  /** `Math.max(1, Number(per ?? 24))`. */
  function PageSize(per: Option<int>): (r: int)
    ensures r >= 1
    ensures per.None? ==> r == 24
    ensures per.Some? && per.value >= 1 ==> r == per.value
  {
    Max(1, per.GetOr(24))
  }

  /** `Math.max(1, Number(page ?? 1))`. */
  function Page(page: Option<int>): (r: int)
    ensures r >= 1
    ensures page.Some? && page.value >= 1 ==> r == page.value
  {
    Max(1, page.GetOr(1))
  }

  /** `from`: the first row of a page. */
  function From(page: int, pageSize: int): int { (page - 1) * pageSize }

  /** `to`: the last row of a page, inclusive. */
  function To(page: int, pageSize: int): int { From(page, pageSize) + pageSize - 1 }

  /** Each page covers `pageSize` rows from row 0, and consecutive pages abut. */
  lemma RangesTile(page: int, pageSize: int)
    requires page >= 1 && pageSize >= 1
    ensures From(page, pageSize) >= 0
    ensures To(page, pageSize) - From(page, pageSize) + 1 == pageSize
    ensures From(page + 1, pageSize) == To(page, pageSize) + 1
    ensures From(1, pageSize) == 0
  {
    assert From(page + 1, pageSize) == From(page, pageSize) + pageSize;
  }

  /** `Math.ceil(a / b)` for a positive `b`. */
  function CeilDiv(a: int, b: int): (r: int)
    requires b > 0
    ensures b * (r - 1) < a <= b * r
  {
    -((-a) / b)
  }

  /** `Math.max(1, Math.ceil(total / pageSize))` with `total = count ?? 0`. */
  function TotalPages(count: Option<int>, pageSize: int): (r: int)
    requires pageSize >= 1
    ensures r >= 1
    ensures count.GetOr(0) > 0 ==> pageSize * (r - 1) < count.GetOr(0) <= pageSize * r
    ensures count.GetOr(0) <= 0 ==> r == 1
  {
    var c := CeilDiv(count.GetOr(0), pageSize);
    assert count.GetOr(0) <= 0 ==> c <= 0;
    Max(1, c)
  }

  /** The previous-page link: `Math.max(1, page - 1)`. */
  function PrevTarget(page: int): int { Max(1, page - 1) }

  /** The next-page link: `Math.min(totalPages, page + 1)`. */
  function NextTarget(page: int, totalPages: int): int { Min(totalPages, page + 1) }

  /**
   * The links stay in [1, totalPages] and move by at most one page; a link
   * is disabled exactly when it would not move forward (next) or back
   * (previous). A page past the last one, which the query string allows,
   * gets a "next" link back to the last page, shown disabled.
   */
  lemma LinksClamped(page: int, totalPages: int)
    requires page >= 1 && totalPages >= 1
    ensures 1 <= PrevTarget(page) <= page
    ensures PrevDisabled(page) <==> PrevTarget(page) == page
    ensures !PrevDisabled(page) ==> PrevTarget(page) == page - 1
    ensures 1 <= NextTarget(page, totalPages) <= totalPages && NextTarget(page, totalPages) <= page + 1
    ensures NextDisabled(page, totalPages) <==> NextTarget(page, totalPages) <= page
    ensures !NextDisabled(page, totalPages) ==> NextTarget(page, totalPages) == page + 1
    ensures page > totalPages ==> NextTarget(page, totalPages) == totalPages && NextDisabled(page, totalPages)
  {
  }

  // ---------------------------------------------------------------------
  // The three latest chapters of a card.

  /** A chapter row: `publishedAt` is the publish time in ms, `None` when missing or empty. */
  datatype Chapter = Chapter(id: int, number: Option<int>, publishedAt: Option<int>)

  /** The comparator: publish time descending (missing = 0), then number descending (missing = 0). */
  function NewestFirst(c: Chapter): Key {
    (-c.publishedAt.GetOr(0), -c.number.GetOr(0))
  }

  /** `chapters.slice().sort(...).slice(0, 3)`. */
  function Latest3(chapters: seq<Chapter>): seq<Chapter> {
    Take(SortBy(chapters, NewestFirst), 3)
  }

  /**
   * At most three chapters, newest first and the higher number first on a
   * tie, all from the input, and none left out is newer than one shown.
   */
  lemma Latest3Facts(chapters: seq<Chapter>)
    ensures var r := Latest3(chapters);
      && |r| <= 3
      && |r| == Min(3, |chapters|)
      && multiset(r) <= multiset(chapters)
      && (forall i, j :: 0 <= i < j < |r| ==>
            r[i].publishedAt.GetOr(0) > r[j].publishedAt.GetOr(0) ||
            (r[i].publishedAt.GetOr(0) == r[j].publishedAt.GetOr(0) && r[i].number.GetOr(0) >= r[j].number.GetOr(0)))
      && (forall x, i :: x in multiset(chapters) - multiset(r) && 0 <= i < |r| ==>
            r[i].publishedAt.GetOr(0) >= x.publishedAt.GetOr(0))
  {
    var r := Latest3(chapters);
    TopK(chapters, NewestFirst, 3);
    forall i, j | 0 <= i < j < |r| ensures
      r[i].publishedAt.GetOr(0) > r[j].publishedAt.GetOr(0) ||
      (r[i].publishedAt.GetOr(0) == r[j].publishedAt.GetOr(0) && r[i].number.GetOr(0) >= r[j].number.GetOr(0))
    {
      assert KeyLe(NewestFirst(r[i]), NewestFirst(r[j]));
    }
    forall x, i | x in multiset(chapters) - multiset(r) && 0 <= i < |r|
      ensures r[i].publishedAt.GetOr(0) >= x.publishedAt.GetOr(0)
    {
      assert KeyLe(NewestFirst(r[i]), NewestFirst(x));
    }
  }
}
