/**
 * components/Header.tsx: the mobile header slides away while the page is
 * scrolled down and comes back when it is scrolled up or near the top. Below
 * the 768px breakpoint a scroll listener drives this; from the breakpoint
 * up the header is always shown and the listener is removed.
 */
module Header {

  /** Closer to the top than this many pixels, the header is always shown. */
  const TopZone: int := 8
  /** A scroll step must move more than this many pixels to change anything. */
  const Threshold: int := 6

  /** The `onScroll` rule: the header's visibility after a scroll from `prev` to `cur`. */
  function NextVisible(visible: bool, prev: int, cur: int): (r: bool)
    ensures cur < TopZone ==> r
    ensures !r ==> cur >= TopZone && (cur - prev > Threshold || (!visible && cur - prev >= -Threshold))
    ensures r && !visible ==> cur < TopZone || cur - prev < -Threshold
  {
    if cur < TopZone then true
    else if cur - prev > Threshold then false
    else if cur - prev < -Threshold then true
    else visible
  }

  /** Small movements away from the top leave the header as it was. */
  lemma SmallMoveKeeps(visible: bool, prev: int, cur: int)
    requires cur >= TopZone && -Threshold <= cur - prev <= Threshold
    ensures NextVisible(visible, prev, cur) == visible
  {
  }

  /** The component's state: `visible`, `lastYRef`, `scrollActiveRef`, and whether the listener is attached. */
  class HeaderState {
    var visible: bool
    var lastY: int
    var scrollActive: bool
    var listening: bool

    /** The flag tracks the listener; without a listener the header is shown; a hidden header is below the top zone. */
    predicate Valid()
      reads this
    {
      && scrollActive == listening
      && (!listening ==> visible)
      && (!visible ==> lastY >= TopZone)
    }

    constructor ()
      ensures Valid() && visible && lastY == 0 && !listening
    {
      visible := true;
      lastY := 0;
      scrollActive := false;
      listening := false;
    }

    /** A window scroll to `cur`: the listener, if attached, runs `onScroll`. */
    method Scroll(cur: int)
      requires Valid()
      modifies this`visible, this`lastY
      ensures Valid()
      ensures old(listening) ==> visible == NextVisible(old(visible), old(lastY), cur) && lastY == cur
      ensures !old(listening) ==> visible == old(visible) && lastY == old(lastY)
    {
      if listening {
        var prev := lastY;
        var delta := cur - prev;
        if cur < TopZone {
          visible := true;
        } else {
          if delta > Threshold {
            visible := false;
          } else if delta < -Threshold {
            visible := true;
          }
        }
        lastY := cur;
      }
    }

    /**
     * `handle`: at the breakpoint or above, show the header and detach the
     * listener; below it, attach the listener (starting from the current
     * scroll position) unless it is already attached.
     */
    method Handle(wide: bool, scrollY: int)
      requires Valid()
      modifies this
      ensures Valid()
      ensures wide ==> visible && !listening && lastY == old(lastY)
      ensures !wide && !old(scrollActive) ==> listening && lastY == scrollY && visible
      ensures !wide && old(scrollActive) ==>
        listening && lastY == old(lastY) && visible == old(visible)
    {
      if wide {
        visible := true;
        listening := false;
        scrollActive := false;
      } else if !scrollActive {
        scrollActive := true;
        lastY := scrollY;
        listening := true;
      }
    }
  }
}
