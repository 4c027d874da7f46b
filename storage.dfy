/**
 * Browser storage as the client code sees it. `localStorage` holds text under
 * a key; every reader runs `JSON.parse` on it. `Stored<T>` is what a reader
 * meets under one key, and `LocalStorage` has one field per key the pages use.
 */
module BrowserStorage {
  import opened Wrappers

  /**
   * The value under one key, after `JSON.parse`.
   * - Absent: `getItem` gave `null` or `""`, both falsy, which every reader treats alike;
   * - Unparsable: `JSON.parse` throws;
   * - NullValue: the text `null`;
   * - OtherValue: any other JSON value that is not the shape the key's writers store
   *   (a number, a string, a boolean, or an object where an array belongs);
   * - Value: the shape the key's writers store.
   */
  datatype Stored<T> = Absent | Unparsable | NullValue | OtherValue | Value(v: T)

  /**
   * What an array method meets after `raw ? JSON.parse(raw) : []`: the list
   * when there is one, `None` when the call on it throws (parse error, `null`,
   * or a value that is not an array).
   */
  function AsList<T>(s: Stored<seq<T>>): (r: Option<seq<T>>)
    ensures r.Some? <==> s.Absent? || s.Value?
    ensures s.Absent? ==> r == Some([])
    ensures s.Value? ==> r == Some(s.v)
  {
    match s
    case Absent => Some([])
    case Value(v) => Some(v)
    case _ => None
  }

  /** What `Array.isArray(arr) ? arr : []` keeps when a parse error also yields `[]`. */
  function ArrayOrEmpty<T>(s: Stored<seq<T>>): (r: seq<T>)
    ensures s.Value? ==> r == s.v
    ensures !s.Value? ==> r == []
  {
    if s.Value? then s.v else []
  }

  /**
   * The two ways of reading a list agree: where the throwing reader gets a
   * list, the catching reader gets the same one, and where it throws, the
   * catching reader falls back to `[]`. A list a writer stored reads back
   * unchanged through both.
   */
  lemma ReadersAgree<T>(s: Stored<seq<T>>)
    ensures AsList(s).Some? ==> AsList(s).value == ArrayOrEmpty(s)
    ensures AsList(s).None? ==> ArrayOrEmpty(s) == []
    ensures ArrayOrEmpty(s) != [] ==> AsList(s) == Some(ArrayOrEmpty(s))
    ensures forall v: seq<T> :: AsList(Value(v)) == Some(v) && ArrayOrEmpty(Value(v)) == v
  {
  }

  /** One element of `recent_reads`. Fields a writer leaves out read back as `None`. */
  datatype RecentEntry = RecentEntry(
    mangaId: int,
    chapterId: int,
    chapterNumber: Option<int>,
    at: int,                      // milliseconds since the epoch
    publishedAt: Option<string>)

  /** One element of `bump_daily_queue_v1`. */
  datatype QueueItem = QueueItem(mangaId: int, date: string)

  /** One value of the `reading_progress_v1` object. */
  datatype ProgressEntry = ProgressEntry(chapterNumber: Option<int>, chapterId: int, updatedAt: string)

  /** `window.localStorage`, one field per key. */
  class LocalStorage {
    var recentReads: Stored<seq<RecentEntry>>           // "recent_reads"
    var readChapters: Stored<seq<int>>                  // "read_chapters_v1"
    var bookmarks: Stored<seq<int>>                     // "bookmarks_v1"
    var bumpQueue: Stored<seq<QueueItem>>               // "bump_daily_queue_v1"
    var progress: Stored<map<int, ProgressEntry>>       // "reading_progress_v1"
    var anonId: string                                  // "anon_id", raw text, "" when absent

    constructor (recentReads: Stored<seq<RecentEntry>>, readChapters: Stored<seq<int>>,
                 bookmarks: Stored<seq<int>>, bumpQueue: Stored<seq<QueueItem>>,
                 progress: Stored<map<int, ProgressEntry>>, anonId: string)
      ensures this.recentReads == recentReads && this.readChapters == readChapters
      ensures this.bookmarks == bookmarks && this.bumpQueue == bumpQueue
      ensures this.progress == progress && this.anonId == anonId
    {
      this.recentReads := recentReads;
      this.readChapters := readChapters;
      this.bookmarks := bookmarks;
      this.bumpQueue := bumpQueue;
      this.progress := progress;
      this.anonId := anonId;
    }
  }

  /** `window.sessionStorage` as used by the daily view bump: the set of once-keys. */
  class SessionStorage {
    /** `bump_daily_v2_<mangaId>_<day>` is set exactly for the pairs in here. */
    var bumped: set<(int, string)>

    constructor (bumped: set<(int, string)>)
      ensures this.bumped == bumped
    {
      this.bumped := bumped;
    }
  }
}
