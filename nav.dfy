/**
 * The navigation bars: components/DesktopBar.tsx (four text links at 1024px
 * and wider) and components/BottomNav.tsx (five icons below that). Both mark
 * a link as active by the same rule on the current path.
 */
module Nav {
  import opened Strings

  /** The active-link rule: the home link only on "/" itself, any other link on every path that starts with it. */
  predicate IsActive(pathname: string, href: string) {
    if href == "/" then pathname == "/" else StartsWith(pathname, href)
  }

  /** The home link is active on the root and nowhere else; other links follow the prefix test. */
  lemma IsActiveFacts(pathname: string, href: string)
    ensures IsActive(pathname, "/") <==> pathname == "/"
    ensures href != "/" ==> (IsActive(pathname, href) <==> |href| <= |pathname| && pathname[..|href|] == href)
  {
  }

  /** The prefix test does not look at path segments: "/recent" is active on "/recentX". */
  lemma NotSegmentAware()
    ensures IsActive("/recentX", "/recent")
  {
    assert "/recentX"[..|"/recent"|] == "/recent";
  }

  /** The desktop bar's text links, in order. */
  const DesktopLinks: seq<string> := ["/", "/novels", "/bookmarks", "/recent"]

  /** The bottom bar's items, in order. */
  const BottomItems: seq<string> := ["/", "/novels", "/bookmarks", "/recent", "/profile"]

  /** Which items of a bar are drawn as active on `pathname`. */
  function ActiveFlags(items: seq<string>, pathname: string): (r: seq<bool>)
    ensures |r| == |items|
    ensures forall i :: 0 <= i < |items| ==> (r[i] <==> IsActive(pathname, items[i]))
  {
    seq(|items|, i requires 0 <= i < |items| => IsActive(pathname, items[i]))
  }

  /**
   * Distinct non-root links that differ in their second character (as all
   * of these do) are never active together, so at most one item is lit.
   */
  lemma AtMostOneActive(items: seq<string>, pathname: string, i: int, j: int)
    requires items == DesktopLinks || items == BottomItems
    requires 0 <= i < |items| && 0 <= j < |items|
    requires IsActive(pathname, items[i]) && IsActive(pathname, items[j])
    ensures i == j
  {
    var a := items[i];
    var b := items[j];
    if a != "/" && b != "/" {
      assert a[1] == pathname[1] == b[1];
    }
  }
}
