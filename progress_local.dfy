/**
 * utils/progressLocal.ts: reading progress kept in the browser for visitors
 * who are not signed in, and the anonymous id that names them. Without a
 * window (server rendering) every function is a no-op.
 */
module ProgressLocal {
  import opened Wrappers
  import opened BrowserStorage

  /**
   * `getAnonId()`: a stored id is returned as it is and nothing is written;
   * otherwise `freshId` (the random id the browser generates) is stored and
   * returned.
   */
  method GetAnonId(st: LocalStorage, hasWindow: bool, freshId: string) returns (id: string)
    modifies st`anonId
    ensures !hasWindow ==> id == "" && st.anonId == old(st.anonId)
    ensures hasWindow && old(st.anonId) != "" ==> id == old(st.anonId) && st.anonId == old(st.anonId)
    ensures hasWindow && old(st.anonId) == "" ==> id == freshId && st.anonId == freshId
  {
    if !hasWindow {
      return "";
    }
    var exist := st.anonId;
    if exist != "" {
      return exist;
    }
    st.anonId := freshId;
    id := freshId;
  }

  /**
   * `loadLocalProgress()`: `JSON.parse(raw || '{}')`, `{}` on a parse error
   * or without a window. `None` is a parsed value that is not an object
   * (`null`, a number, a string), on which the later property write throws.
   */
  function LoadLocalProgress(hasWindow: bool, s: Stored<map<int, ProgressEntry>>): (r: Option<map<int, ProgressEntry>>)
    ensures !hasWindow || s.Absent? || s.Unparsable? ==> r == Some(map[])
    ensures hasWindow && s.Value? ==> r == Some(s.v)
    ensures r.None? <==> hasWindow && (s.NullValue? || s.OtherValue?)
  {
    if !hasWindow then Some(map[])
    else
      match s
      case Absent => Some(map[])
      case Unparsable => Some(map[])
      case Value(p) => Some(p)
      case _ => None
  }

  /**
   * A map saved in the browser loads back unchanged; without a window the
   * loader always sees `{}`; and a load never shows an entry that is not
   * stored.
   */
  lemma LoadAfterSave(p: map<int, ProgressEntry>, s: Stored<map<int, ProgressEntry>>, hasWindow: bool)
    ensures LoadLocalProgress(true, Value(p)) == Some(p)
    ensures LoadLocalProgress(false, s) == Some(map[])
    ensures LoadLocalProgress(hasWindow, s).Some? ==>
      forall k :: k in LoadLocalProgress(hasWindow, s).value ==> hasWindow && s.Value? && k in s.v
  {
  }

  /** `saveLocalProgress(p)`: nothing happens without a window. */
  method SaveLocalProgress(st: LocalStorage, hasWindow: bool, p: map<int, ProgressEntry>)
    modifies st`progress
    ensures st.progress == if hasWindow then Value(p) else old(st.progress)
  {
    if hasWindow {
      st.progress := Value(p);
    }
  }

  /**
   * `upsertLocalProgress(mangaId, chapterId, chapterNumber)`: entry `mangaId`
   * becomes the new record stamped `now`; every other entry stays. `ok` is
   * false when the property write throws, and then nothing is stored.
   */
  method UpsertLocalProgress(st: LocalStorage, hasWindow: bool, mangaId: int, chapterId: int,
                             chapterNumber: Option<int>, now: string) returns (ok: bool)
    modifies st`progress
    ensures ok <==> LoadLocalProgress(hasWindow, old(st.progress)).Some?
    ensures !ok || !hasWindow ==> st.progress == old(st.progress)
    ensures ok && hasWindow ==> st.progress.Value?
    ensures ok && hasWindow ==>
      var before := LoadLocalProgress(hasWindow, old(st.progress)).value;
      && st.progress.v.Keys == before.Keys + {mangaId}
      && st.progress.v[mangaId] == ProgressEntry(chapterNumber, chapterId, now)
      && forall k :: k in before && k != mangaId ==> st.progress.v[k] == before[k]
  {
    var p := LoadLocalProgress(hasWindow, st.progress);
    if p.None? {
      return false;
    }
    var q := p.value[mangaId := ProgressEntry(chapterNumber, chapterId, now)];
    SaveLocalProgress(st, hasWindow, q);
    ok := true;
  }
}
