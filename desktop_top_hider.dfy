/**
 * app/read/_DesktopTopHider.tsx: on screens 1024px wide or more, the
 * desktop bar and the reader bar slide up together while the page is
 * scrolled down and come back when it is scrolled up. Both bars get the
 * same `slide-up` state from `apply`.
 */
module DesktopTopHider {
  import opened Wrappers

  /** A step must move more than this many pixels to change anything. */
  const Threshold: int := 6
  /** Hiding also needs the page scrolled past this many pixels. */
  const MinHideY: int := 8

  /** The `onScroll` decision: `Some(up)` when `apply(up)` is called, `None` when nothing is. */
  function Decide(lastY: int, y: int): (r: Option<bool>)
    ensures r == Some(true) <==> y - lastY > Threshold && y > MinHideY
    ensures r == Some(false) <==> y - lastY < -Threshold
    ensures r.None? <==> -Threshold <= y - lastY && (y - lastY <= Threshold || y <= MinHideY)
  {
    if y - lastY > Threshold && y > MinHideY then Some(true)
    else if y - lastY < -Threshold then Some(false)
    else None
  }

  /**
   * Hiding and showing mirror each other: scrolling straight back over a
   * step that hid the bars shows them again, and, past the top zone, back
   * over a step that showed them hides them; a step of at most 6px changes
   * nothing.
   */
  lemma DecideReversible(lastY: int, y: int)
    ensures Decide(lastY, y) == Some(true) ==> Decide(y, lastY) == Some(false)
    ensures Decide(lastY, y) == Some(false) && lastY > MinHideY ==> Decide(y, lastY) == Some(true)
    ensures -Threshold <= y - lastY <= Threshold ==> Decide(lastY, y).None?
  {
  }

  /**
   * The effect's closure state and the two targets' classes: `lastY`,
   * `ticking`, `enabled` (the scroll listener is attached exactly while it
   * holds), the frames requested but not yet run, and `slide-up` on each bar.
   */
  class TopHider {
    var lastY: int
    var ticking: bool
    var enabled: bool
    var pending: nat
    var desktopBarUp: bool
    var readerBarUp: bool

    /**
     * Both bars are always in the same state, and exactly one frame is
     * waiting while `ticking`, none otherwise.
     */
    predicate Valid()
      reads this
    {
      desktopBarUp == readerBarUp && pending == (if ticking then 1 else 0)
    }

    /** `apply(hide)` with `up` for `hide`: add or remove `slide-up` on both bars. */
    method Apply(up: bool)
      modifies this`desktopBarUp, this`readerBarUp
      ensures desktopBarUp == up && readerBarUp == up
    {
      desktopBarUp := up;
      readerBarUp := up;
    }

    /** The effect on mount: `lastY` is the current position, and a wide screen enables hiding. */
    constructor (wide: bool, y: int)
      ensures Valid()
      ensures enabled == wide && lastY == y && !ticking && pending == 0
      ensures !desktopBarUp && !readerBarUp
    {
      lastY := y;
      ticking := false;
      enabled := false;
      pending := 0;
      desktopBarUp := false;
      readerBarUp := false;
      new;
      if wide {
        Enable(y);
      }
    }

    /** `enable`: a no-op when enabled; otherwise restart from `y`, show both bars and attach the listener. */
    method Enable(y: int)
      requires Valid()
      modifies this`enabled, this`lastY, this`desktopBarUp, this`readerBarUp
      ensures Valid() && enabled
      ensures old(enabled) ==> lastY == old(lastY) && desktopBarUp == old(desktopBarUp) && readerBarUp == old(readerBarUp)
      ensures !old(enabled) ==> lastY == y && !desktopBarUp && !readerBarUp
    {
      if enabled {
        return;
      }
      enabled := true;
      lastY := y;
      Apply(false);
    }

    /** `disable`: a no-op when disabled; otherwise detach the listener and show both bars. */
    method Disable()
      requires Valid()
      modifies this`enabled, this`desktopBarUp, this`readerBarUp
      ensures Valid() && !enabled
      ensures old(enabled) ==> !desktopBarUp && !readerBarUp
      ensures !old(enabled) ==> desktopBarUp == old(desktopBarUp) && readerBarUp == old(readerBarUp)
    {
      if !enabled {
        return;
      }
      enabled := false;
      Apply(false);
    }

    /** `onChange`: the enabled flag follows the 1024px media query. */
    method OnChange(wide: bool, y: int)
      requires Valid()
      modifies this`enabled, this`lastY, this`desktopBarUp, this`readerBarUp
      ensures Valid() && enabled == wide
      ensures wide != old(enabled) ==> !desktopBarUp && !readerBarUp
      ensures wide && !old(enabled) ==> lastY == y
      ensures !wide ==> lastY == old(lastY)
      ensures wide == old(enabled) ==> lastY == old(lastY) && desktopBarUp == old(desktopBarUp)
    {
      if wide {
        Enable(y);
      } else {
        Disable();
      }
    }

    /** A window scroll: the listener, attached while enabled, runs `req`. */
    method Scroll()
      requires Valid()
      modifies this`ticking, this`pending
      ensures Valid()
      ensures old(enabled) && !old(ticking) ==> ticking && pending == old(pending) + 1
      ensures !(old(enabled) && !old(ticking)) ==> ticking == old(ticking) && pending == old(pending)
    {
      if enabled && !ticking {
        ticking := true;
        pending := pending + 1;
      }
    }

    /** A requested frame runs `onScroll` with the position `y` at that time. */
    method Frame(y: int)
      requires Valid() && pending >= 1
      modifies this`lastY, this`ticking, this`pending, this`desktopBarUp, this`readerBarUp
      ensures Valid()
      ensures Decide(old(lastY), y).Some? ==> desktopBarUp == Decide(old(lastY), y).value
      ensures Decide(old(lastY), y).None? ==> desktopBarUp == old(desktopBarUp)
      ensures lastY == y && !ticking && pending == old(pending) - 1
    {
      var diff := y - lastY;
      if diff > Threshold && y > MinHideY {
        Apply(true);
      } else if diff < -Threshold {
        Apply(false);
      }
      lastY := y;
      ticking := false;
      pending := pending - 1;
    }
  }
}
