/**
 * components/SearchBox.tsx: the header search box. A settled query is
 * looked up, the results are listed in a drop-down, and the arrow keys move
 * an "active" highlight over them.
 */
module SearchBox {
  import opened Wrappers
  import opened Strings

  /** A result row: `chapterCounts` is the embedded `chapters(count)` array, `None` for null. */
  datatype Row = Row(id: int, title: string, slug: string, chapterCounts: Option<seq<Option<int>>>)

  /** The keys `onKeyDown` tells apart; any other key is `OtherKey`. */
  datatype KeyName = ArrowDown | ArrowUp | Enter | OtherKey

  /** What the search query came back with: an error, or rows (`None` for null data). */
  datatype Response = Failed | Found(data: Option<seq<Row>>)

  /** The new highlight after an arrow key over `len` rows; other keys keep it. */
  function NextActive(key: KeyName, i: int, len: int): (r: int)
    ensures key.ArrowDown? ==> r == (if i + 1 <= len - 1 then i + 1 else len - 1)
    ensures key.ArrowUp? ==> r == (if i - 1 >= 0 then i - 1 else 0)
    ensures !key.ArrowDown? && !key.ArrowUp? ==> r == i
  {
    match key
    case ArrowDown => Min(i + 1, len - 1)
    case ArrowUp => Max(i - 1, 0)
    case _ => i
  }

  /** A highlight inside the list stays inside it, and each arrow moves it by at most one row. */
  lemma NextActiveInRange(key: KeyName, i: int, len: int)
    requires 0 <= i < len
    ensures 0 <= NextActive(key, i, len) < len
    ensures -1 <= NextActive(key, i, len) - i <= 1
  {
  }

  /**
   * The arrows undo each other away from the ends of the list, and holding
   * one of them long enough reaches that end and stays there.
   */
  lemma ArrowsUndo(i: int, len: int)
    ensures 0 <= i < len - 1 ==> NextActive(ArrowUp, NextActive(ArrowDown, i, len), len) == i
    ensures 0 < i < len ==> NextActive(ArrowDown, NextActive(ArrowUp, i, len), len) == i
    ensures len >= 1 ==> NextActive(ArrowDown, len - 1, len) == len - 1 && NextActive(ArrowUp, 0, len) == 0
  {
  }

  /** The chapter count shown for a row: `chapters[0].count` when it is a non-zero number, else 0. */
  function ChapterCount(row: Row): (r: int)
    ensures r != 0 <==> (row.chapterCounts.Some? && |row.chapterCounts.value| > 0 &&
                         TruthyInt(row.chapterCounts.value[0]))
    ensures r != 0 ==> r == row.chapterCounts.value[0].value
  {
    match row.chapterCounts
    case None => 0
    case Some(cs) => if |cs| > 0 && TruthyInt(cs[0]) then cs[0].value else 0
  }

  /**
   * The truthiness test loses nothing: whenever the row carries a count, the
   * count itself is shown (a count of 0 shows as 0 either way), as
   * `?? 0` would; without a count 0 is shown.
   */
  lemma ChapterCountIsCount(row: Row)
    ensures var cs := row.chapterCounts;
      ChapterCount(row) == if cs.Some? && |cs.value| > 0 && cs.value[0].Some? then cs.value[0].value else 0
  {
  }

  /** The state the component keeps: drop-down open, loading, the rows and the highlighted index. */
  class SearchBoxState {
    var open: bool
    var loading: bool
    var rows: seq<Row>
    var active: int

    constructor ()
      ensures !open && !loading && rows == [] && active == 0
    {
      open := false;
      loading := false;
      rows := [];
      active := 0;
    }

    /**
     * `onKeyDown`: ignored while the drop-down is closed or empty; the arrows
     * move the highlight; Enter returns the page of the highlighted row,
     * if there is a row at that index.
     */
    method OnKeyDown(key: KeyName) returns (navigate: Option<string>)
      modifies this`active
      ensures !old(open) || old(rows) == [] ==> active == old(active) && navigate.None?
      ensures old(open) && old(rows) != [] ==> active == NextActive(key, old(active), |rows|)
      ensures navigate.Some? <==> old(open) && rows != [] && key.Enter? && 0 <= active < |rows|
      ensures navigate.Some? ==> navigate.value == "/manga/" + rows[active].slug
    {
      navigate := None;
      if !open || |rows| == 0 {
        return;
      }
      active := NextActive(key, active, |rows|);
      if key.Enter? && 0 <= active < |rows| {
        navigate := Some("/manga/" + rows[active].slug);
      }
    }

    /**
     * The effect on a settled query. A blank query (white space only)
     * clears the rows and the loading flag without asking anything; otherwise
     * the `response` comes back: an error clears the rows, a result replaces
     * them, resets the highlight to the first row and opens the drop-down.
     */
    method OnQuery(debounced: string, response: Response) returns (queried: bool)
      modifies this`rows, this`loading, this`active, this`open
      ensures queried <==> !Blank(debounced)
      ensures !loading
      ensures !queried ==> rows == [] && active == old(active) && open == old(open)
      ensures queried && response.Failed? ==> rows == [] && active == old(active) && open == old(open)
      ensures queried && response.Found? ==> rows == response.data.GetOr([]) && active == 0 && open
    {
      TrimBlank(debounced);
      if Trim(debounced) == "" {
        rows := [];
        loading := false;
        return false;
      }
      queried := true;
      loading := true;
      loading := false;
      match response
      case Failed =>
        rows := [];
      case Found(data) =>
        rows := data.GetOr([]);
        active := 0;
        open := true;
    }

    /** Focus reopens the drop-down when there are rows. */
    method OnFocus()
      modifies this`open
      ensures open == (old(open) || rows != [])
    {
      if |rows| > 0 {
        open := true;
      }
    }

    /** Pointing at the `i`-th row highlights it. */
    method OnMouseEnter(i: nat)
      modifies this`active
      ensures active == i
    {
      active := i;
    }

    /** Escape, or a mouse press outside the box, closes the drop-down. */
    method Close()
      modifies this`open
      ensures !open
    {
      open := false;
    }
  }
}
