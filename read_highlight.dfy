/**
 * components/ReadHighlight.tsx: colours a chapter link once the chapter has
 * been read. The read-chapter list is asked first, the recent list second.
 */
module ReadHighlight {
  import opened Wrappers
  import opened Strings
  import opened BrowserStorage
  import Recent
  import ReadHistory

  /**
   * `computeRead()`. A parse error anywhere is caught and gives `false`, so a
   * corrupt `read_chapters_v1` hides what `recent_reads` knows; a value that
   * is not an array is passed over.
   */
  function ComputeRead(readChapters: Stored<seq<int>>, recent: Stored<seq<RecentEntry>>, chapterId: int): (r: bool)
    ensures r <==> (!readChapters.Unparsable? &&
      ((readChapters.Value? && chapterId in readChapters.v) ||
       (recent.Value? && exists x :: x in recent.v && x.chapterId == chapterId)))
  {
    if readChapters.Unparsable? then false
    else if readChapters.Value? && chapterId in readChapters.v then true
    else
      match recent
      case Value(arr) => exists x :: x in arr && x.chapterId == chapterId
      case _ => false
  }

  /** A chapter just saved to the recent list is highlighted, unless the read-chapter list is corrupt. */
  lemma ReadAfterSave(readChapters: Stored<seq<int>>, arr: seq<RecentEntry>, entry: RecentEntry)
    requires !readChapters.Unparsable?
    ensures ComputeRead(readChapters, Value(Recent.NextRecent(arr, entry)), entry.chapterId)
  {
    Recent.NextRecentShape(arr, entry);
    assert entry in Recent.NextRecent(arr, entry);
  }

  /**
   * The fallback agrees with the history hook: with no usable read-chapter
   * list, a chapter is highlighted exactly when `isRead` says it was read.
   */
  lemma FallbackAgreesWithHistory(readChapters: Stored<seq<int>>, recent: Stored<seq<RecentEntry>>, chapterId: int)
    requires readChapters.Absent? || readChapters.NullValue? || readChapters.OtherValue?
    ensures ComputeRead(readChapters, recent, chapterId) <==> ReadHistory.IsRead(recent, chapterId)
  {
    if ReadHistory.IsRead(recent, chapterId) {
      var x :| x in ArrayOrEmpty(recent) && x.chapterId == chapterId;
      assert recent.Value? && x in recent.v;
    }
  }

  /** `parts.filter(Boolean).join(" ")` on two parts. */
  lemma JoinTwo(a: string, b: string, sep: string)
    ensures JoinNonEmpty([a, b], sep) ==
      if a == "" then b else if b == "" then a else a + sep + b
  {
    assert [a, b][1..] == [b] && [b][1..] == [];
    assert JoinNonEmpty([b], sep) == b;
  }

  /**
   * The class string: `className` and the read or unread class, joined by a
   * space, with an empty part dropped.
   */
  function ClassString(className: string, read: bool, readClassName: string, unreadClassName: string): (r: string)
    ensures var chosen := if read then readClassName else unreadClassName;
      r == if className == "" then chosen else if chosen == "" then className else className + " " + chosen
  {
    var chosen := if read then readClassName else unreadClassName;
    JoinTwo(className, chosen, " ");
    JoinNonEmpty([className, chosen], " ")
  }
}
