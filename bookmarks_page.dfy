/**
 * app/bookmarks/page.tsx: the bookmarks page reads the id list, fetches those
 * manga and shows them in bookmark order, with a ribbon on completed series.
 */
module BookmarksPage {
  import opened Wrappers
  import opened Seqs
  import opened Strings
  import opened BrowserStorage

  /** The words, compared after lower-casing and trimming, that mark a finished series. */
  const CompletedWords: seq<string> := ["completed", "complete", "finished", "จบ", "จบแล้ว"]

  /** `isCompletedStatus(s)`: falsy input is not completed. */
  predicate IsCompletedStatus(s: Option<string>) {
    TruthyStr(s) && Trim(ToLower(s.value)) in CompletedWords
  }

  /** White space around the status does not matter. */
  lemma CompletedIgnoresPadding(s: string)
    ensures IsCompletedStatus(Some(s)) <==> IsCompletedStatus(Some(Trim(s)))
  {
    var l := Trim(ToLower(s));
    LowerTrim(s);
    LowerTrim(Trim(s));
    TrimIdempotent(s);
    assert Trim(ToLower(Trim(s))) == l;
    if Trim(s) == "" {
      assert l == "";
    }
    if s == "" {
      TrimBlank(s);
    }
  }

  /** Neither do Latin capitals. */
  lemma CompletedIgnoresCase(s: string)
    ensures IsCompletedStatus(Some(s)) <==> IsCompletedStatus(Some(ToLower(s)))
  {
    assert ToLower(ToLower(s)) == ToLower(s);
    assert |ToLower(s)| == |s|;
  }

  datatype ChapterLite = ChapterLite(id: int, number: Option<int>, publishedAt: Option<string>)

  datatype MangaRow = MangaRow(
    id: int,
    title: string,
    slug: string,
    coverUrl: Option<string>,
    status: Option<string>,
    chapters: Option<seq<ChapterLite>>)

  /** `new Map(data.map((m) => [m.id, m]))`: the last row with an id is the one kept. */
  function ById(data: seq<MangaRow>): (m: map<int, MangaRow>)
    ensures forall k :: 0 <= k < |data| ==> data[k].id in m
    ensures forall id :: id in m ==> m[id] in data && m[id].id == id
  {
    if data == [] then map[]
    else
      var front, c := data[..|data| - 1], data[|data| - 1];
      assert forall k :: 0 <= k < |front| ==> data[k] == front[k];
      ById(front)[c.id := c]
  }

  /** The ids that have a fetched row, in bookmark order. */
  function Present(ids: seq<int>, byId: map<int, MangaRow>): (p: seq<int>)
    ensures forall id :: id in p <==> id in ids && id in byId
    ensures IsSubseq(p, ids)
  {
    if ids == [] then []
    else
      var rest := Present(ids[1..], byId);
      if ids[0] in byId then [ids[0]] + rest
      else
        SubseqCons(rest, ids);
        rest
  }

  /** `ids.map((id) => byId.get(id)).filter(Boolean)`. */
  function OrderRows(ids: seq<int>, byId: map<int, MangaRow>): (r: seq<MangaRow>)
    ensures |r| == |Present(ids, byId)|
    ensures forall k :: 0 <= k < |r| ==> r[k] == byId[Present(ids, byId)[k]]
  {
    if ids == [] then []
    else
      var rest := OrderRows(ids[1..], byId);
      if ids[0] in byId then [byId[ids[0]]] + rest else rest
  }

  /**
   * The rows follow the bookmark order: the k-th row is the manga of the k-th
   * bookmarked id that came back, and every bookmarked id that came back has
   * its row.
   */
  lemma OrderRowsFacts(ids: seq<int>, data: seq<MangaRow>)
    ensures var r := OrderRows(ids, ById(data));
      && |r| <= |ids|
      && (forall k :: 0 <= k < |r| ==> r[k].id == Present(ids, ById(data))[k] && r[k] in data)
      && (forall id :: id in ids && (exists k :: 0 <= k < |data| && data[k].id == id) ==>
            exists k :: 0 <= k < |r| && r[k].id == id)
  {
    var m := ById(data);
    var p := Present(ids, m);
    var r := OrderRows(ids, m);
    SubseqMembers(p, ids);
    forall id | id in ids && (exists k :: 0 <= k < |data| && data[k].id == id)
      ensures exists k :: 0 <= k < |r| && r[k].id == id
    {
      assert id in m;
      var k :| 0 <= k < |p| && p[k] == id;
      assert r[k].id == id;
    }
  }

  /** `typeof latest?.number === "number" ? latest.number : null` with `latest` the first chapter. */
  function LatestNumber(m: MangaRow): (r: Option<int>)
    ensures r.Some? <==> m.chapters.Some? && m.chapters.value != [] && m.chapters.value[0].number.Some?
    ensures r.Some? ==> r == m.chapters.value[0].number
  {
    if m.chapters.Some? && m.chapters.value != [] then m.chapters.value[0].number else None
  }

  /**
   * The embedded chapter list the query asks for: `.order("number",
   * { ascending: false })` and `.limit(1)` on `chapters`. PostgreSQL sorts
   * nulls first in descending order, so the one chapter returned is one
   * without a number when there is such a chapter, and otherwise one with
   * the highest number.
   */
  predicate IsNewestChapterList(all: seq<ChapterLite>, top: seq<ChapterLite>) {
    if all == [] then top == []
    else
      |top| == 1 && top[0] in all &&
      if exists c :: c in all && c.number.None? then top[0].number.None?
      else forall c :: c in all ==> c.number.Some? && top[0].number.Some? && c.number.value <= top[0].number.value
  }

  /**
   * The number shown on a card: none when the manga has no chapter or has a
   * chapter without a number; otherwise the highest chapter number.
   */
  lemma LatestNumberShown(m: MangaRow, all: seq<ChapterLite>)
    requires m.chapters.Some? && IsNewestChapterList(all, m.chapters.value)
    ensures LatestNumber(m).None? <==> all == [] || exists c :: c in all && c.number.None?
    ensures LatestNumber(m).Some? ==>
      (exists c :: c in all && c.number == LatestNumber(m)) &&
      forall c :: c in all ==> c.number.Some? && c.number.value <= LatestNumber(m).value
  {
    var top := m.chapters.value;
    if all != [] && !(exists c :: c in all && c.number.None?) {
      assert top[0] in all;
      assert top[0].number.Some?;
    }
  }

  /** The page's state. */
  class BookmarksPageView {
    var ids: seq<int>
    var rows: seq<MangaRow>
    var loading: bool

    constructor ()
      ensures ids == [] && rows == [] && loading
    {
      ids := [];
      rows := [];
      loading := true;
    }

    /** `loadIds()`: a value that is not an array, or fails to parse, gives no ids. */
    method LoadIds(st: LocalStorage)
      modifies this`ids
      ensures ids == ArrayOrEmpty(st.bookmarks)
    {
      ids := ArrayOrEmpty(st.bookmarks);
    }

    /**
     * The rows effect: no ids means no query and no rows; a failed query
     * (`response` is `None`) shows no rows; otherwise the rows in id order.
     */
    method LoadRows(response: Option<seq<MangaRow>>) returns (queried: bool)
      modifies this`rows, this`loading
      ensures queried <==> ids != []
      ensures rows == if ids == [] || response.None? then [] else OrderRows(ids, ById(response.value))
      ensures !loading
    {
      loading := true;
      if ids == [] {
        rows := [];
        queried := false;
      } else {
        queried := true;
        if response.None? {
          rows := [];
        } else {
          rows := OrderRows(ids, ById(response.value));
        }
      }
      loading := false;
    }
  }
}
