/**
 * app/read/_ReaderBarBehavior.tsx: on phones and tablets the reader's bar
 * hides while the page is scrolled down and returns when it is scrolled up
 * or near the top. Scroll events are throttled to one animation frame: a
 * frame is requested only when none requested by a scroll is still waiting.
 */
module ReaderBarBehavior {

  /** At or above this many pixels from the top, the bar is always shown. */
  const TopZone: int := 2
  /** A step must move more than this many pixels to change anything. */
  const Threshold: int := 4

  /** The `onScroll` rule: whether the bar carries the hidden class after a frame at `y`. */
  function NextHidden(hidden: bool, lastY: int, y: int): (r: bool)
    ensures y <= TopZone ==> !r
    ensures r ==> y > TopZone && (y - lastY > Threshold || (hidden && y - lastY >= -Threshold))
    ensures !r && hidden ==> y <= TopZone || y - lastY < -Threshold
  {
    if y <= TopZone then false
    else if y - lastY > Threshold then true
    else if y - lastY < -Threshold then false
    else hidden
  }

  /**
   * The effect's closure state: whether it installed anything, the class on
   * the bar, `lastY`, `ticking`, and the number of frames requested that
   * have not run yet.
   */
  class ReaderBar {
    var installed: bool
    var hidden: bool
    var lastY: int
    var ticking: bool
    var pending: nat

    /** While `ticking`, a frame is waiting. */
    predicate Valid()
      reads this
    {
      ticking ==> pending >= 1
    }

    /**
     * The effect on mount: nothing is installed when the bar is missing or
     * the screen is 1024px wide or more; otherwise `lastY` starts at the
     * current position and the first sync frame is requested.
     */
    constructor (barExists: bool, desktop: bool, y: int, hiddenNow: bool)
      ensures Valid()
      ensures installed <==> barExists && !desktop
      ensures hidden == hiddenNow && !ticking
      ensures installed ==> lastY == y && pending == 1
      ensures !installed ==> pending == 0
    {
      hidden := hiddenNow;
      ticking := false;
      if !barExists || desktop {
        installed := false;
        lastY := 0;
        pending := 0;
      } else {
        installed := true;
        lastY := y;
        pending := 1;
      }
    }

    /** `req`, run by a scroll or touch-move event: request a frame unless `ticking` is already on. */
    method Req()
      requires Valid()
      modifies this`ticking, this`pending
      ensures Valid()
      ensures !old(installed) || old(ticking) ==> ticking == old(ticking) && pending == old(pending)
      ensures old(installed) && !old(ticking) ==> ticking && pending == old(pending) + 1
    {
      if installed && !ticking {
        ticking := true;
        pending := pending + 1;
      }
    }

    /** A requested frame runs `onScroll` with the position `y` at that time. */
    method Frame(y: int)
      requires Valid() && pending >= 1
      modifies this`hidden, this`lastY, this`ticking, this`pending
      ensures Valid()
      ensures hidden == NextHidden(old(hidden), old(lastY), y)
      ensures lastY == y && !ticking && pending == old(pending) - 1
    {
      var diff := y - lastY;
      if y <= TopZone {
        hidden := false;
      } else {
        if diff > Threshold {
          hidden := true;
        } else if diff < -Threshold {
          hidden := false;
        }
      }
      lastY := y;
      ticking := false;
      pending := pending - 1;
    }

    /**
     * `onChange`: becoming wide shows the bar; becoming narrow restarts from
     * the current position and requests a frame.
     */
    method OnChange(desktop: bool, y: int)
      requires Valid()
      modifies this`hidden, this`lastY, this`pending
      ensures Valid()
      ensures !old(installed) ==> hidden == old(hidden) && lastY == old(lastY) && pending == old(pending)
      ensures old(installed) && desktop ==> !hidden && lastY == old(lastY) && pending == old(pending)
      ensures old(installed) && !desktop ==> hidden == old(hidden) && lastY == y && pending == old(pending) + 1
    {
      if installed {
        if desktop {
          hidden := false;
        } else {
          lastY := y;
          pending := pending + 1;
        }
      }
    }

    /** `onVisible`: when the tab becomes visible again, recompute from the current position. */
    method OnVisible(visible: bool, y: int)
      requires Valid()
      modifies this`lastY, this`pending
      ensures Valid()
      ensures old(installed) && visible ==> lastY == y && pending == old(pending) + 1
      ensures !(old(installed) && visible) ==> lastY == old(lastY) && pending == old(pending)
    {
      if installed && visible {
        lastY := y;
        pending := pending + 1;
      }
    }
  }
}
