/**
 * lib/useReadHistory.ts: a hook over `recent_reads` that answers "was this
 * chapter read?" and appends a record when a chapter is marked read.
 */
module ReadHistory {
  import opened Wrappers
  import opened BrowserStorage

  /**
   * `isRead(chapterId)`: some record of `readAll()` has that chapter.
   * `readAll()` is `ArrayOrEmpty`: a missing value, a value that is not an
   * array and a parse error all read as no records.
   */
  predicate IsRead(s: Stored<seq<RecentEntry>>, chapterId: int) {
    exists r :: r in ArrayOrEmpty(s) && r.chapterId == chapterId
  }

  /** The record `markRead` appends; this hook stores no chapter number and no publish date. */
  function MarkRecord(mangaId: int, chapterId: int, now: int): RecentEntry {
    RecentEntry(mangaId, chapterId, None, now, None)
  }

  /**
   * `markRead(mangaId, chapterId)`: push one record onto what `readAll()`
   * returned and store the list. Nothing is removed and there is no cap;
   * a value that could not be read is overwritten.
   */
  method MarkRead(st: LocalStorage, mangaId: int, chapterId: int, now: int)
    modifies st`recentReads
    ensures st.recentReads.Value?
    ensures |st.recentReads.v| == |ArrayOrEmpty(old(st.recentReads))| + 1
    ensures st.recentReads.v[..|st.recentReads.v| - 1] == ArrayOrEmpty(old(st.recentReads))
    ensures st.recentReads.v[|st.recentReads.v| - 1] == MarkRecord(mangaId, chapterId, now)
  {
    var arr := ArrayOrEmpty(st.recentReads);
    arr := arr + [MarkRecord(mangaId, chapterId, now)];     // arr.push(...)
    st.recentReads := Value(arr);
  }

  /**
   * After `markRead` the chapter reads as read, and every other chapter reads
   * as it did before.
   */
  lemma IsReadAfterMark(s: Stored<seq<RecentEntry>>, mangaId: int, chapterId: int, now: int)
    ensures var after := Value(ArrayOrEmpty(s) + [MarkRecord(mangaId, chapterId, now)]);
      && IsRead(after, chapterId)
      && forall c :: c != chapterId ==> (IsRead(after, c) <==> IsRead(s, c))
  {
    var arr := ArrayOrEmpty(s);
    var e := MarkRecord(mangaId, chapterId, now);
    var after := Value(arr + [e]);
    assert e in ArrayOrEmpty(after);
    forall c | c != chapterId ensures IsRead(after, c) <==> IsRead(s, c) {
      if IsRead(after, c) {
        var r :| r in arr + [e] && r.chapterId == c;
        assert r in arr;
      }
      if IsRead(s, c) {
        var r :| r in arr && r.chapterId == c;
        assert r in arr + [e];
      }
    }
  }
}
