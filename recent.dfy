/**
 * lib/recent.ts: the "recent reads" list kept under `recent_reads`. The same
 * list update is written by WriteRecentOnMount and ButtonsRecentWriter, which
 * use `NextRecent` from here.
 */
module Recent {
  import opened Wrappers
  import opened Seqs
  import opened BrowserStorage

  /** The list never holds more than this many entries. */
  const RecentCap: nat := 100

  /** `arr.filter((x) => x.mangaId !== m)`. */
  function WithoutManga(arr: seq<RecentEntry>, m: int): (r: seq<RecentEntry>)
    ensures |r| <= |arr|
    ensures forall x :: x in r <==> x in arr && x.mangaId != m
    ensures IsSubseq(r, arr)
  {
    if arr == [] then []
    else if arr[0].mangaId != m then [arr[0]] + WithoutManga(arr[1..], m)
    else
      var r := WithoutManga(arr[1..], m);
      SubseqCons(r, arr);
      r
  }

  /** At most one entry per manga. */
  predicate OnePerManga(s: seq<RecentEntry>) {
    forall i, j :: 0 <= i < j < |s| ==> s[i].mangaId != s[j].mangaId
  }

  /** `[entry, ...arr.filter((x) => x.mangaId !== entry.mangaId)].slice(0, 100)`. */
  function NextRecent(arr: seq<RecentEntry>, entry: RecentEntry): seq<RecentEntry> {
    Take([entry] + WithoutManga(arr, entry.mangaId), RecentCap)
  }

  /**
   * After a save the new entry comes first, it is the only entry for its
   * manga, and the list is capped at 100; only the tail past the cap is lost.
   */
  lemma NextRecentShape(arr: seq<RecentEntry>, entry: RecentEntry)
    ensures var r := NextRecent(arr, entry);
      && 1 <= |r| <= RecentCap
      && r[0] == entry
      && (forall i :: 1 <= i < |r| ==> r[i].mangaId != entry.mangaId)
      && |r| == Min(RecentCap, 1 + |WithoutManga(arr, entry.mangaId)|)
  {
    var r := NextRecent(arr, entry);
    forall i | 1 <= i < |r| ensures r[i].mangaId != entry.mangaId {
      assert r[i] in WithoutManga(arr, entry.mangaId);
    }
  }

  /**
   * The entries after the first are entries of the old list for other manga,
   * in their old relative order, and they are the first ones of those.
   */
  lemma NextRecentKeepsOrder(arr: seq<RecentEntry>, entry: RecentEntry)
    ensures var r := NextRecent(arr, entry);
      && IsSubseq(r[1..], arr)
      && r[1..] == WithoutManga(arr, entry.mangaId)[..|r| - 1]
      && (forall x :: x in arr && x.mangaId != entry.mangaId && |r| < RecentCap ==> x in r)
  {
    var w := WithoutManga(arr, entry.mangaId);
    var r := NextRecent(arr, entry);
    assert r[1..] == w[..|r| - 1];
    PrefixOfSubseq(w, arr, |r| - 1);
    if |r| < RecentCap {
      assert r == [entry] + w;
    }
  }

  /** A list with one entry per manga still has one entry per manga after a save. */
  lemma NextRecentOnePerManga(arr: seq<RecentEntry>, entry: RecentEntry)
    requires OnePerManga(arr)
    ensures OnePerManga(NextRecent(arr, entry))
  {
    var r := NextRecent(arr, entry);
    NextRecentShape(arr, entry);
    NextRecentKeepsOrder(arr, entry);
    var tail := r[1..];
    assert OnePerManga(tail) by { SubseqOnePerManga(tail, arr); }
    forall i, j | 0 <= i < j < |r| ensures r[i].mangaId != r[j].mangaId {
      if i > 0 { assert r[i] == tail[i - 1] && r[j] == tail[j - 1]; }
    }
  }

  lemma {:induction false} SubseqOnePerManga(a: seq<RecentEntry>, b: seq<RecentEntry>)
    requires IsSubseq(a, b) && OnePerManga(b)
    ensures OnePerManga(a)
    decreases |b|
  {
    if a != [] {
      assert OnePerManga(b[1..]) by {
        forall i, j | 0 <= i < j < |b| - 1 ensures b[1..][i].mangaId != b[1..][j].mangaId {
          assert b[1..][i] == b[i + 1] && b[1..][j] == b[j + 1];
        }
      }
      if a[0] == b[0] {
        SubseqOnePerManga(a[1..], b[1..]);
        SubseqMembers(a[1..], b[1..]);
        forall i, j | 0 <= i < j < |a| ensures a[i].mangaId != a[j].mangaId {
          if i == 0 {
            assert a[j] == a[1..][j - 1];
            assert a[j] in b[1..];
            var k :| 0 <= k < |b[1..]| && b[1..][k] == a[j];
            assert b[k + 1] == a[j];
          } else {
            assert a[i] == a[1..][i - 1] && a[j] == a[1..][j - 1];
          }
        }
      } else {
        SubseqOnePerManga(a, b[1..]);
      }
    }
  }

  /** The stored value after a save: the new list, or the old value when the read threw. */
  function AfterSave(old_: Stored<seq<RecentEntry>>, entry: RecentEntry): (r: Stored<seq<RecentEntry>>)
    ensures AsList(old_).None? ==> r == old_
    ensures AsList(old_).Some? ==> r.Value? && |r.v| >= 1 && r.v[0] == entry
  {
    match AsList(old_)
    case Some(arr) => Value(NextRecent(arr, entry))
    case None => old_
  }

  /**
   * `saveRecent(entry)`: `at` is the supplied time or else `now`. A read or
   * parse error is swallowed and nothing is written.
   */
  method SaveRecent(st: LocalStorage, mangaId: int, chapterId: int, chapterNumber: Option<int>,
                    publishedAt: Option<string>, at: Option<int>, now: int)
    modifies st`recentReads
    ensures var entry := RecentEntry(mangaId, chapterId, chapterNumber, at.GetOr(now), publishedAt);
      st.recentReads == AfterSave(old(st.recentReads), entry)
  {
    var stamp := at.GetOr(now);
    var arr := AsList(st.recentReads);
    if arr.Some? {
      st.recentReads := Value(NextRecent(arr.value, RecentEntry(mangaId, chapterId, chapterNumber, stamp, publishedAt)));
    }
  }
}
