/**
 * components/home/FilterControls.tsx: the All / Manga / Novel pills. Each
 * pill links to the current path with the query string's `filter` set to
 * its value and the three page numbers removed, so that every list starts
 * again at its first page.
 *
 * The query string is a `URLSearchParams`: an ordered list of name-value
 * pairs, updated by `set` and `delete` as section 6.2 of the WHATWG URL
 * Standard defines them.
 */
module FilterControls {

  type Pair = (string, string)

  /** The pairs whose name is not in `names`, in order. */
  function Drop(list: seq<Pair>, names: set<string>): (r: seq<Pair>)
    ensures |r| <= |list|
  {
    if list == [] then []
    else if list[0].0 in names then Drop(list[1..], names)
    else [list[0]] + Drop(list[1..], names)
  }

  /** The pairs whose name is `name`, in order. */
  function Named(list: seq<Pair>, name: string): (r: seq<Pair>)
    ensures forall p :: p in r <==> p in list && p.0 == name
  {
    if list == [] then []
    else if list[0].0 == name then [list[0]] + Named(list[1..], name)
    else Named(list[1..], name)
  }

  /**
   * `set(name, value)`: the first pair named `name` takes the value and the
   * other pairs with that name are removed; with no such pair, the pair is
   * appended.
   */
  function SetPair(list: seq<Pair>, name: string, value: string): seq<Pair> {
    if list == [] then [(name, value)]
    else if list[0].0 == name then [(name, value)] + Drop(list[1..], {name})
    else [list[0]] + SetPair(list[1..], name, value)
  }

  /** `toString()` without percent-encoding: `name=value` pairs joined by `&`. */
  function Serialize(list: seq<Pair>): string {
    if list == [] then ""
    else if |list| == 1 then list[0].0 + "=" + list[0].1
    else list[0].0 + "=" + list[0].1 + "&" + Serialize(list[1..])
  }

  /** A `URLSearchParams` object: its list of pairs, updated in place. */
  class SearchParams {
    var list: seq<Pair>

    /** `new URLSearchParams(search.toString())`: a copy of the current pairs. */
    constructor (pairs: seq<Pair>)
      ensures list == pairs
    {
      list := pairs;
    }

    /** `set(name, value)`, walking the list once. */
    method Set(name: string, value: string)
      modifies this`list
      ensures list == SetPair(old(list), name, value)
    {
      var src := list;
      ghost var target := SetPair(src, name, value);
      var out: seq<Pair> := [];
      var found := false;
      var k := 0;
      while k < |src|
        invariant 0 <= k <= |src|
        invariant found ==> target == out + Drop(src[k..], {name})
        invariant !found ==> target == out + SetPair(src[k..], name, value)
      {
        if found {
          StepAfterFound(target, out, src, k, name);
        } else {
          StepBeforeFound(target, out, src, k, name, value);
        }
        if src[k].0 == name {
          if !found {
            out := out + [(name, value)];
            found := true;
          }
        } else {
          out := out + [src[k]];
        }
        k := k + 1;
      }
      assert src[k..] == [];
      if !found {
        out := out + [(name, value)];
      }
      list := out;
    }

    /** `delete(name)`: every pair with that name is removed. */
    method Delete(name: string)
      modifies this`list
      ensures list == Drop(old(list), {name})
    {
      var src := list;
      var out: seq<Pair> := [];
      var k := 0;
      while k < |src|
        invariant 0 <= k <= |src|
        invariant Drop(src, {name}) == out + Drop(src[k..], {name})
      {
        SuffixStep(src, k, name, "");
        if src[k].0 != name {
          out := out + [src[k]];
        }
        k := k + 1;
      }
      list := out;
    }
  }

  /** `set` and `delete` on the pairs from index `k` on, one pair at a time. */
  lemma SuffixStep(src: seq<Pair>, k: nat, name: string, value: string)
    requires k < |src|
    ensures SetPair(src[k..], name, value) ==
      if src[k].0 == name then [(name, value)] + Drop(src[k + 1..], {name})
      else [src[k]] + SetPair(src[k + 1..], name, value)
    ensures Drop(src[k..], {name}) ==
      if src[k].0 == name then Drop(src[k + 1..], {name}) else [src[k]] + Drop(src[k + 1..], {name})
  {
    assert src[k..][0] == src[k] && src[k..][1..] == src[k + 1..];
  }

  /** A step of `set`'s walk once the first pair with the name has been replaced. */
  lemma StepAfterFound(target: seq<Pair>, out: seq<Pair>, src: seq<Pair>, k: nat, name: string)
    requires k < |src| && target == out + Drop(src[k..], {name})
    ensures src[k].0 == name ==> target == out + Drop(src[k + 1..], {name})
    ensures src[k].0 != name ==> target == (out + [src[k]]) + Drop(src[k + 1..], {name})
  {
    SuffixStep(src, k, name, "");
  }

  /** A step of `set`'s walk before any pair with the name has been met. */
  lemma StepBeforeFound(target: seq<Pair>, out: seq<Pair>, src: seq<Pair>, k: nat, name: string, value: string)
    requires k < |src| && target == out + SetPair(src[k..], name, value)
    ensures src[k].0 == name ==> target == (out + [(name, value)]) + Drop(src[k + 1..], {name})
    ensures src[k].0 != name ==> target == (out + [src[k]]) + SetPair(src[k + 1..], name, value)
  {
    SuffixStep(src, k, name, value);
  }

  /** The three page-number parameters a filter change removes. */
  const PageParams: set<string> := {"page", "pageM", "pageN"}

  /** The pairs of a pill's link. */
  function FilterQuery(search: seq<Pair>, val: string): seq<Pair> {
    Drop(Drop(Drop(SetPair(search, "filter", val), {"page"}), {"pageM"}), {"pageN"})
  }

  /** `buildHref(val)`: copy the parameters, set the filter, delete the page numbers. */
  method BuildHref(pathname: string, search: seq<Pair>, val: string) returns (href: string)
    ensures href == pathname + "?" + Serialize(FilterQuery(search, val))
  {
    var q := new SearchParams(search);
    q.Set("filter", val);
    q.Delete("page");
    q.Delete("pageM");
    q.Delete("pageN");
    href := pathname + "?" + Serialize(q.list);
  }

  /** The pairs kept are exactly those whose name is not in `names`. */
  lemma {:induction false} DropMembers(list: seq<Pair>, names: set<string>)
    ensures forall p :: p in Drop(list, names) <==> p in list && p.0 !in names
  {
    if list != [] {
      DropMembers(list[1..], names);
      assert list == [list[0]] + list[1..];
    }
  }

  lemma {:induction false} DropDrop(list: seq<Pair>, a: set<string>, b: set<string>)
    ensures Drop(Drop(list, a), b) == Drop(list, a + b)
  {
    if list != [] {
      DropDrop(list[1..], a, b);
    }
  }

  /** After `set`, exactly one pair has the name, and it holds the value. */
  lemma {:induction false} SetPairNamed(list: seq<Pair>, name: string, value: string)
    ensures Named(SetPair(list, name, value), name) == [(name, value)]
  {
    if list != [] {
      if list[0].0 == name {
        DropNamed(list[1..], name);
      } else {
        SetPairNamed(list[1..], name, value);
      }
    }
  }

  lemma {:induction false} DropNamed(list: seq<Pair>, name: string)
    ensures Named(Drop(list, {name}), name) == []
  {
    if list != [] {
      DropNamed(list[1..], name);
    }
  }

  /** `set` leaves every pair with another name where it was, in order. */
  lemma {:induction false} SetPairOthers(list: seq<Pair>, name: string, value: string, names: set<string>)
    requires name in names
    ensures Drop(SetPair(list, name, value), names) == Drop(list, names)
  {
    if list != [] {
      if list[0].0 == name {
        DropDrop(list[1..], {name}, names);
        assert {name} + names == names;
      } else {
        SetPairOthers(list[1..], name, value, names);
      }
    }
  }

  /** Dropping other names keeps the pairs with this one. */
  lemma {:induction false} NamedDrop(list: seq<Pair>, name: string, names: set<string>)
    requires name !in names
    ensures Named(Drop(list, names), name) == Named(list, name)
  {
    if list != [] {
      NamedDrop(list[1..], name, names);
    }
  }

  /**
   * A pill's link has exactly one `filter` parameter, equal to the pill's
   * value; no `page`, `pageM` or `pageN`; and every other parameter of the
   * current query, in its original order.
   */
  lemma FilterQueryFacts(search: seq<Pair>, val: string)
    ensures Named(FilterQuery(search, val), "filter") == [("filter", val)]
    ensures forall p :: p in FilterQuery(search, val) ==> p.0 !in PageParams
    ensures Drop(FilterQuery(search, val), {"filter"} + PageParams) == Drop(search, {"filter"} + PageParams)
  {
    var s1 := SetPair(search, "filter", val);
    DropDrop(s1, {"page"}, {"pageM"});
    DropDrop(s1, {"page"} + {"pageM"}, {"pageN"});
    assert {"page"} + {"pageM"} + {"pageN"} == PageParams;
    assert FilterQuery(search, val) == Drop(s1, PageParams);
    SetPairNamed(search, "filter", val);
    NamedDrop(s1, "filter", PageParams);
    DropDrop(s1, PageParams, {"filter"} + PageParams);
    assert PageParams + ({"filter"} + PageParams) == {"filter"} + PageParams;
    SetPairOthers(search, "filter", val, {"filter"} + PageParams);
    DropMembers(s1, PageParams);
  }

  /** The three pills, in order. */
  datatype Filter = All | Manga | Novel

  const Pills: seq<Filter> := [All, Manga, Novel]

  function FilterValue(f: Filter): string {
    match f
    case All => "all"
    case Manga => "manga"
    case Novel => "novel"
  }

  /** Which pills are drawn as active: those equal to `active`. */
  function ActivePills(active: Filter): (r: seq<bool>)
    ensures |r| == |Pills|
    ensures forall i :: 0 <= i < |r| ==> (r[i] <==> Pills[i] == active)
  {
    seq(|Pills|, i requires 0 <= i < |Pills| => Pills[i] == active)
  }

  /** Exactly one pill is active. */
  lemma OnePillActive(active: Filter)
    ensures exists i :: 0 <= i < |Pills| && ActivePills(active)[i]
    ensures forall i, j :: 0 <= i < |Pills| && 0 <= j < |Pills| && ActivePills(active)[i] && ActivePills(active)[j] ==> i == j
  {
    var r := ActivePills(active);
    if active == All { assert r[0]; } else if active == Manga { assert r[1]; } else { assert r[2]; }
  }
}
