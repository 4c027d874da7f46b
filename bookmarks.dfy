/**
 * The bookmark toggles of components/BookmarkButton.tsx and
 * components/BookmarkCorner.tsx. Both keep `bookmarks_v1` as a JSON array of
 * manga ids, read it into a `Set`, delete or add one id and store the set
 * back as an array.
 */
module Bookmarks {
  import opened Wrappers
  import opened Seqs
  import opened BrowserStorage

  /** `Array.from(new Set(arr))`: each id once, at the place of its first occurrence. */
  function Dedupe(arr: seq<int>): (r: seq<int>)
    ensures NoDup(r)
    ensures forall x :: x in r <==> x in arr
    ensures NoDup(arr) ==> r == arr
  {
    if arr == [] then []
    else
      var front, last := arr[..|arr| - 1], arr[|arr| - 1];
      assert arr == front + [last];
      var d := Dedupe(front);
      assert NoDup(arr) ==> NoDup(front) && last !in front by {
        if NoDup(arr) {
          forall i, j | 0 <= i < j < |front| ensures front[i] != front[j] {
            assert front[i] == arr[i] && front[j] == arr[j];
          }
        }
      }
      if last in d then d else d + [last]
  }

  /** `set.delete(m)`: the others keep their order. */
  function Remove(s: seq<int>, m: int): (r: seq<int>)
    ensures forall x :: x in r <==> x in s && x != m
    ensures IsSubseq(r, s)
  {
    if s == [] then []
    else if s[0] == m then
      var rest := Remove(s[1..], m);
      SubseqCons(rest, s);
      rest
    else [s[0]] + Remove(s[1..], m)
  }

  /**
   * What `new Set(raw ? JSON.parse(raw) : [])` iterates: `new Set(null)` is
   * empty, a parse error or a value that is not iterable throws (`None`).
   */
  function SetSource(s: Stored<seq<int>>): (r: Option<seq<int>>)
    ensures r.None? <==> s.Unparsable? || s.OtherValue?
    ensures r.Some? ==> r.value == ArrayOrEmpty(s)
  {
    match s
    case Absent => Some([])
    case NullValue => Some([])
    case Value(v) => Some(v)
    case _ => None
  }

  /** The list written back after one toggle of `m`. */
  function Toggled(arr: seq<int>, m: int): seq<int> {
    var ids := Dedupe(arr);
    if m in ids then Remove(ids, m) else ids + [m]
  }

  /**
   * A toggle flips the membership of `m`, leaves every other id's membership
   * as it was, and writes no duplicate: an added id goes last, a removal
   * keeps the others' order.
   */
  lemma ToggledFacts(arr: seq<int>, m: int)
    ensures m in Toggled(arr, m) <==> m !in arr
    ensures forall x :: x != m ==> (x in Toggled(arr, m) <==> x in arr)
    ensures NoDup(Toggled(arr, m))
    ensures m !in arr ==> Toggled(arr, m) == Dedupe(arr) + [m]
    ensures m in arr ==> IsSubseq(Toggled(arr, m), Dedupe(arr))
  {
    var ids := Dedupe(arr);
    if m in ids {
      SubseqNoDup(Remove(ids, m), ids);
    } else {
      var r := ids + [m];
      forall i, j | 0 <= i < j < |r| ensures r[i] != r[j] {
        if j < |ids| { assert r[i] == ids[i] && r[j] == ids[j]; }
        else { assert r[i] in ids; }
      }
    }
  }

  /**
   * Toggling twice restores the membership of every id, and restores the
   * very list when `m` was absent from a list without duplicates.
   */
  lemma ToggleTwice(arr: seq<int>, m: int)
    ensures forall x :: x in Toggled(Toggled(arr, m), m) <==> x in arr
    ensures NoDup(arr) && m !in arr ==> Toggled(Toggled(arr, m), m) == arr
  {
    var once := Toggled(arr, m);
    ToggledFacts(arr, m);
    ToggledFacts(once, m);
    if NoDup(arr) && m !in arr {
      assert once == arr + [m];
      var twice := Toggled(once, m);
      assert Dedupe(once) == once;
      assert Remove(arr + [m], m) == arr by {
        RemoveAbsent(arr, m);
      }
    }
  }

  /** Removing an id that is not there and is then appended gives the list back. */
  lemma {:induction false} RemoveAbsent(s: seq<int>, m: int)
    requires m !in s
    ensures Remove(s + [m], m) == s
  {
    if s != [] {
      assert (s + [m])[1..] == s[1..] + [m];
      RemoveAbsent(s[1..], m);
    }
  }

  /**
   * The initial membership check: `Array.isArray(arr) && arr.includes(m)`.
   * `None` is a parse error, which is caught and leaves the flag as it was.
   */
  function Initial(s: Stored<seq<int>>, m: int): (r: Option<bool>)
    ensures r == Some(true) <==> s.Value? && m in s.v
    ensures r.None? <==> s.Unparsable?
    ensures r.Some? ==> (r.value <==> m in ArrayOrEmpty(s))
    ensures r.Some? && SetSource(s).Some? ==> (r.value <==> m in SetSource(s).value)
  {
    match s
    case Unparsable => None
    case Value(v) => Some(m in v)
    case _ => Some(false)
  }

  /** components/BookmarkButton.tsx: the `on` state of one manga's button. */
  class BookmarkButton {
    const mangaId: int
    var on: bool

    constructor (mangaId: int)
      ensures this.mangaId == mangaId && !on
    {
      this.mangaId := mangaId;
      on := false;
    }

    /** The mount effect. */
    method Mount(st: LocalStorage)
      modifies this`on
      ensures on == Initial(st.bookmarks, mangaId).GetOr(old(on))
    {
      var init := Initial(st.bookmarks, mangaId);
      if init.Some? {
        on := init.value;
      }
    }

    /**
     * `toggle()`: a value that throws leaves storage and the flag alone;
     * otherwise the toggled list is stored and `on` is the new membership.
     */
    method Toggle(st: LocalStorage)
      modifies st`bookmarks, this`on
      ensures match SetSource(old(st.bookmarks))
        case None => st.bookmarks == old(st.bookmarks) && on == old(on)
        case Some(arr) => st.bookmarks == Value(Toggled(arr, mangaId)) && on == (mangaId !in arr)
    {
      var source := SetSource(st.bookmarks);
      if source.None? {
        return;
      }
      var ids := Dedupe(source.value);
      if mangaId in ids {
        ids := Remove(ids, mangaId);
      } else {
        ids := ids + [mangaId];
      }
      st.bookmarks := Value(ids);
      ToggledFacts(source.value, mangaId);
      on := mangaId in ids;
    }
  }

  /** components/BookmarkCorner.tsx: the `active` state of one manga's corner tab. */
  class BookmarkCorner {
    const mangaId: int
    var active: bool

    constructor (mangaId: int)
      ensures this.mangaId == mangaId && !active
    {
      this.mangaId := mangaId;
      active := false;
    }

    /** The mount effect. */
    method Mount(st: LocalStorage)
      modifies this`active
      ensures active == Initial(st.bookmarks, mangaId).GetOr(old(active))
    {
      var init := Initial(st.bookmarks, mangaId);
      if init.Some? {
        active := init.value;
      }
    }

    /** `toggle(e)`: as the button's, with the flag named `active`. */
    method Toggle(st: LocalStorage)
      modifies st`bookmarks, this`active
      ensures match SetSource(old(st.bookmarks))
        case None => st.bookmarks == old(st.bookmarks) && active == old(active)
        case Some(arr) => st.bookmarks == Value(Toggled(arr, mangaId)) && active == (mangaId !in arr)
    {
      var source := SetSource(st.bookmarks);
      if source.None? {
        return;
      }
      var ids := Dedupe(source.value);
      if mangaId in ids {
        ids := Remove(ids, mangaId);
      } else {
        ids := ids + [mangaId];
      }
      st.bookmarks := Value(ids);
      ToggledFacts(source.value, mangaId);
      active := mangaId in ids;
    }
  }
}
