/**
 * app/read/_ButtonsRecentWriter.tsx: clicking the reader's previous or next
 * button records the target chapter in `recent_reads` before the link is
 * followed, using the chapter's metadata passed in by the page.
 */
module ButtonsRecentWriter {
  import opened Wrappers
  import opened BrowserStorage
  import Recent

  /** What the page knows about a neighbouring chapter. */
  datatype Meta = Meta(mangaId: int, number: Option<int>, publishedAt: Option<string>)

  /** The entry `writeRecent` puts first: manga, number and date from the metadata. */
  function EntryFor(meta: Meta, chapterId: int, now: int): (e: RecentEntry)
    ensures e.mangaId == meta.mangaId && e.chapterId == chapterId && e.at == now
    ensures e.chapterNumber == meta.number && e.publishedAt == meta.publishedAt
  {
    RecentEntry(meta.mangaId, chapterId, meta.number, now, meta.publishedAt)
  }

  /** `writeRecent(chapterId)`: nothing without metadata for the chapter, nothing on a read error. */
  method WriteRecent(st: LocalStorage, metaById: map<int, Meta>, chapterId: int, now: int)
    modifies st`recentReads
    ensures chapterId !in metaById ==> st.recentReads == old(st.recentReads)
    ensures chapterId in metaById ==>
      st.recentReads == Recent.AfterSave(old(st.recentReads), EntryFor(metaById[chapterId], chapterId, now))
    ensures chapterId in metaById && AsList(old(st.recentReads)).Some? ==>
      var meta, r := metaById[chapterId], st.recentReads;
      && r.Value? && |r.v| >= 1
      && r.v[0].mangaId == meta.mangaId && r.v[0].chapterId == chapterId
      && r.v[0].chapterNumber == meta.number && r.v[0].publishedAt == meta.publishedAt && r.v[0].at == now
      && forall k :: 1 <= k < |r.v| ==> r.v[k].mangaId != meta.mangaId
  {
    if chapterId !in metaById {
      return;
    }
    var meta := metaById[chapterId];
    var arr := AsList(st.recentReads);
    if arr.Some? {
      var entry := EntryFor(meta, chapterId, now);
      Recent.NextRecentShape(arr.value, entry);
      st.recentReads := Value(Recent.NextRecent(arr.value, entry));
    }
  }

  /**
   * A handler is attached to the previous/next button only for a truthy id;
   * a falsy one (missing, `null`, or 0) means no element is looked up.
   */
  predicate Attached(target: Option<int>) {
    TruthyInt(target)
  }

  /** A plain click on an attached button writes the target chapter. */
  method OnClick(st: LocalStorage, target: Option<int>, metaById: map<int, Meta>, now: int)
    modifies st`recentReads
    ensures !Attached(target) ==> st.recentReads == old(st.recentReads)
    ensures Attached(target) && target.value in metaById ==>
      st.recentReads == Recent.AfterSave(old(st.recentReads), EntryFor(metaById[target.value], target.value, now))
    ensures Attached(target) && target.value !in metaById ==> st.recentReads == old(st.recentReads)
  {
    if !Attached(target) {
      return;
    }
    WriteRecent(st, metaById, target.value, now);
  }

  /** An auxiliary click writes only for the middle button (`button === 1`). */
  method OnAuxClick(st: LocalStorage, target: Option<int>, button: int, metaById: map<int, Meta>, now: int)
    modifies st`recentReads
    ensures !Attached(target) || button != 1 ==> st.recentReads == old(st.recentReads)
    ensures Attached(target) && button == 1 && target.value in metaById ==>
      st.recentReads == Recent.AfterSave(old(st.recentReads), EntryFor(metaById[target.value], target.value, now))
    ensures Attached(target) && button == 1 && target.value !in metaById ==> st.recentReads == old(st.recentReads)
  {
    if !Attached(target) {
      return;
    }
    if button == 1 {
      WriteRecent(st, metaById, target.value, now);
    }
  }
}
