/**
 * components/WriteRecentOnMount.tsx: when a chapter page mounts it records the
 * chapter in `recent_reads` and adds its id to the read-chapter list
 * `read_chapters_v1`, both inside one `try` block.
 */
module WriteRecentOnMount {
  import opened Wrappers
  import opened Seqs
  import opened BrowserStorage
  import Recent

  /** The read-chapter list never grows past this many ids by an insert. */
  const ReadChaptersCap: nat := 5000

  /** What the insert leaves in `read_chapters_v1`: the id in front unless present, cut to 5000. */
  function InsertReadChapter(arr: seq<int>, id: int): seq<int> {
    if id in arr then arr else Take([id] + arr, ReadChaptersCap)
  }

  /**
   * A present id leaves the list as it is; an absent one is put first and the
   * list is cut to 5000, keeping the old ids in their order.
   */
  lemma InsertReadChapterShape(arr: seq<int>, id: int)
    ensures var r := InsertReadChapter(arr, id);
      && id in r
      && (id in arr ==> r == arr)
      && (id !in arr ==> r[0] == id && |r| == Min(ReadChaptersCap, |arr| + 1) && r[1..] == arr[..|r| - 1])
  {
    if id !in arr {
      assert InsertReadChapter(arr, id)[0] == id;
    }
  }

  /** The insert never creates a duplicate id. */
  lemma InsertReadChapterNoDup(arr: seq<int>, id: int)
    requires NoDup(arr)
    ensures NoDup(InsertReadChapter(arr, id))
  {
    var r := InsertReadChapter(arr, id);
    if id !in arr {
      forall i, j | 0 <= i < j < |r| ensures r[i] != r[j] {
        assert r[j] == arr[j - 1];
        if i > 0 { assert r[i] == arr[i - 1]; }
      }
    }
  }

  /**
   * The effect body. A read that throws (a parse error, or a value whose array
   * method is missing) ends the `try` block: no later write happens. The
   * read-chapter list is rewritten only when the id is new.
   */
  method OnMount(st: LocalStorage, mangaId: int, chapterId: int, chapterNumber: Option<int>,
                 publishedAt: Option<string>, now: int)
    modifies st`recentReads, st`readChapters
    ensures var entry := RecentEntry(mangaId, chapterId, chapterNumber, now, publishedAt);
      match AsList(old(st.recentReads))
      case None =>
        st.recentReads == old(st.recentReads) && st.readChapters == old(st.readChapters)
      case Some(recent) =>
        && st.recentReads == Value(Recent.NextRecent(recent, entry))
        && st.readChapters == match AsList(old(st.readChapters))
           case Some(ids) => if chapterId in ids then old(st.readChapters)
                             else Value(InsertReadChapter(ids, chapterId))
           case None => old(st.readChapters)
  {
    // 1) one entry per manga in recent_reads
    var recent := AsList(st.recentReads);
    if recent.None? {
      return;
    }
    var filtered := Recent.WithoutManga(recent.value, mangaId);
    var next := Take([RecentEntry(mangaId, chapterId, chapterNumber, now, publishedAt)] + filtered, Recent.RecentCap);
    st.recentReads := Value(next);

    // 2) every chapter ever read, newest first
    var stored := AsList(st.readChapters);
    if stored.None? {
      return;
    }
    var arr := stored.value;
    if chapterId !in arr {
      arr := [chapterId] + arr;                 // arr.unshift(idNum)
      if |arr| > ReadChaptersCap {
        arr := arr[..ReadChaptersCap];          // arr.length = 5000
      }
      st.readChapters := Value(arr);
    }
  }
}
