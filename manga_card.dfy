/**
 * components/MangaCard.tsx: a card lists the three most recently published
 * chapters of a manga, each with a "New!" badge or a relative time.
 */
module MangaCard {
  import opened Wrappers
  import opened Seqs
  import opened StableSort
  import Time

  /** A chapter of the card: `publishedAt` in ms, `None` for a null or empty date. */
  datatype CardChapter = CardChapter(id: int, number: int, publishedAt: Option<int>)

  /** The comparator `tb - ta`: publish time descending, a missing date counting as 0. */
  function ByPublishedDesc(c: CardChapter): Key {
    (-c.publishedAt.GetOr(0), 0)
  }

  /** `[...chapters].sort(cmp).slice(0, 3)`: the sort works on a copy, so the input is left as it was. */
  function Top3(chapters: seq<CardChapter>): seq<CardChapter> {
    Take(SortBy(chapters, ByPublishedDesc), 3)
  }

  /**
   * At most three chapters (all of them when there are fewer), newest first,
   * taken from the input, and no chapter left out was published later than
   * one that is shown.
   */
  lemma Top3Facts(chapters: seq<CardChapter>)
    ensures var r := Top3(chapters);
      && |r| == Min(3, |chapters|)
      && multiset(r) <= multiset(chapters)
      && (forall i, j :: 0 <= i < j < |r| ==> r[i].publishedAt.GetOr(0) >= r[j].publishedAt.GetOr(0))
      && (forall x, i :: x in multiset(chapters) - multiset(r) && 0 <= i < |r| ==>
            r[i].publishedAt.GetOr(0) >= x.publishedAt.GetOr(0))
  {
    var r := Top3(chapters);
    TopK(chapters, ByPublishedDesc, 3);
    forall i, j | 0 <= i < j < |r| ensures r[i].publishedAt.GetOr(0) >= r[j].publishedAt.GetOr(0) {
      assert KeyLe(ByPublishedDesc(r[i]), ByPublishedDesc(r[j]));
    }
    forall x, i | x in multiset(chapters) - multiset(r) && 0 <= i < |r|
      ensures r[i].publishedAt.GetOr(0) >= x.publishedAt.GetOr(0)
    {
      assert KeyLe(ByPublishedDesc(r[i]), ByPublishedDesc(x));
    }
  }

  /**
   * The sort is stable: among chapters with the same publish time, the ones
   * shown are the first of them in input order, still in that order.
   */
  lemma Top3Stable(chapters: seq<CardChapter>, t: int)
    ensures WithKey(Top3(chapters), (-t, 0), ByPublishedDesc) <= WithKey(chapters, (-t, 0), ByPublishedDesc)
  {
    var s := SortBy(chapters, ByPublishedDesc);
    SortByStable(chapters, (-t, 0), ByPublishedDesc);
    WithKeyPrefix(s, |Top3(chapters)|, (-t, 0), ByPublishedDesc);
  }

  /**
   * What a row shows next to "ตอน n": `None` for the "New!" badge, otherwise
   * the relative time label. `elapsed` is now minus the publish time.
   */
  function RowLabel(elapsed: Option<int>): (r: Option<Time.Ago>)
    ensures r.None? <==> Time.IsNewWithin24h(elapsed)
    ensures r.Some? ==> r.value == Time.TimeAgo(elapsed) && (elapsed.Some? ==> elapsed.value >= Time.DayMs)
  {
    if Time.IsNewWithin24h(elapsed) then None else Some(Time.TimeAgo(elapsed))
  }

  /**
   * Badge and label never overlap: a row without the badge shows "-" (no
   * date) or a count of days or longer, never seconds, minutes or hours.
   */
  lemma RowLabelNoSmallUnits(elapsed: Option<int>)
    ensures RowLabel(elapsed).Some? ==>
      var a := RowLabel(elapsed).value;
      a.Dash? || a.Days? || a.Weeks? || a.Months? || a.Years?
    ensures RowLabel(elapsed) == Some(Time.Dash) <==> elapsed.None?
  {
    Time.NewMatchesBuckets(elapsed);
  }
}
