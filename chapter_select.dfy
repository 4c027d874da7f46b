/**
 * app/read/_ChapterSelect.tsx: the chapter drop-down of the reader. The
 * options are shown in chapter-number order, and picking one navigates to
 * its reader page.
 */
module ChapterSelect {
  import opened Wrappers
  import opened Strings
  import opened StableSort

  /** An option: `number` is `None` for a null chapter number. */
  datatype ChapterOption = ChapterOption(id: int, number: Option<int>)

  /**
   * The comparator `(a.number ?? Infinity) - (b.number ?? Infinity)`: a
   * number sorts before a null (`n - Infinity` is negative), and two nulls
   * compare as equal (`Infinity - Infinity` is NaN, which the sort reads as 0).
   */
  function ByNumberNullsLast(o: ChapterOption): Key {
    if o.number.None? then (1, 0) else (0, o.number.value)
  }

  /** `[...options].sort(cmp)`: a sorted copy; the input is left as it was. */
  function Sorted(options: seq<ChapterOption>): seq<ChapterOption> {
    SortBy(options, ByNumberNullsLast)
  }

  /**
   * The sorted list holds exactly the options, numbered ones in ascending
   * order, every null after every number, and the nulls in their input order.
   */
  lemma SortedFacts(options: seq<ChapterOption>)
    ensures var r := Sorted(options);
      && multiset(r) == multiset(options)
      && (forall i, j :: 0 <= i < j < |r| && r[i].number.Some? && r[j].number.Some? ==>
            r[i].number.value <= r[j].number.value)
      && (forall i, j :: 0 <= i < j < |r| && r[i].number.None? ==> r[j].number.None?)
      && WithKey(r, (1, 0), ByNumberNullsLast) == WithKey(options, (1, 0), ByNumberNullsLast)
  {
    var r := Sorted(options);
    SortBySortedPerm(options, ByNumberNullsLast);
    SortByStable(options, (1, 0), ByNumberNullsLast);
    forall i, j | 0 <= i < j < |r| ensures
      (r[i].number.Some? && r[j].number.Some? ==> r[i].number.value <= r[j].number.value) &&
      (r[i].number.None? ==> r[j].number.None?)
    {
      assert KeyLe(ByNumberNullsLast(r[i]), ByNumberNullsLast(r[j]));
    }
  }

  /**
   * `go(id)`: the route pushed for a selected id, `None` when the id is not
   * a finite number (`None` here) and nothing happens.
   */
  function Go(id: Option<int>): (r: Option<string>)
    ensures r.None? <==> id.None?
    ensures r.Some? ==> StartsWith(r.value, "/read/") && r.value[6..] == IntToString(id.value)
  {
    if id.None? then None else Some("/read/" + IntToString(id.value))
  }

  /** Different chapters lead to different routes. */
  lemma GoInjective(a: Option<int>, b: Option<int>)
    ensures Go(a).Some? && Go(a) == Go(b) ==> a == b
  {
    if Go(a).Some? && Go(a) == Go(b) {
      IntToStringInjective(a.value, b.value);
    }
  }

  /** The text of an option: `ตอน <number>`, or `ตอน -` when the number is null. */
  function Label(o: ChapterOption): (r: string)
    ensures StartsWith(r, "ตอน ")
    ensures r == "ตอน -" <==> o.number.None?
  {
    var n := if o.number.Some? then IntToString(o.number.value) else "-";
    assert o.number.Some? && o.number.value < 0 ==> |n| >= 2;
    "ตอน " + n
  }
}
