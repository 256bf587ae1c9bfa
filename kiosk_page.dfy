/** The state js/kiosk-runtime.js changes in place during one page load:
    `localStorage` (a string map), the navigation it requests (`location.href`),
    the window's scroll position and the runtime's own pause flag. The
    decisions it takes are the functions of KioskRuntime. */
module KioskPage {
  import opened Wrappers
  import opened Decimal
  import opened JsValues
  import opened KioskRuntime

  class Page {
    /** What lines 3-47 decided on this load. */
    const session: Boot
    var storage: map<string, string>
    /** The URL assigned to `location.href`, if any. */
    var href: Option<string>
    var scrollY: real
    /** The runtime's `paused`, toggled by KeyP; it is not the controls' flag. */
    var paused: bool

    /** A page load: decide whether kiosk mode runs and, when it does, write
        the reconciled index back to storage (line 50). `kiosk` is the query
        value `qs.get('kiosk')`. */
    constructor Load(kiosk: Option<string>, storage0: map<string, string>, pathname: string,
                     scrollY0: real, parseJson: string -> Option<JsValue>, strToNum: string -> JsNumber)
      ensures session == StartSession(kiosk, storage0, pathname, parseJson, strToNum)
      ensures storage == if session.Active? then storage0[IndexKey := IntToString(session.idx)] else storage0
      ensures href == None && scrollY == scrollY0 && !paused
    {
      session := StartSession(kiosk, storage0, pathname, parseJson, strToNum);
      storage := storage0;
      href := None;
      scrollY := scrollY0;
      paused := false;
      new;
      if session.Active? {
        storage := storage[IndexKey := IntToString(session.idx)];
      }
    }

    /** The keydown handler of lines 56-60: KeyP flips `paused`, any other key
        leaves it. */
    method OnKeyDown(code: string)
      requires session.Active?
      modifies this`paused
      ensures paused == (if code == "KeyP" then !old(paused) else old(paused))
    {
      if code == "KeyP" {
        paused := !paused;
      }
    }

    /** Lines 71-82 up to the animation: measure the page, then either dwell
        or scroll to the top and start an animation from 0 to the bottom. */
    method Measure(scrollHeight: real, innerHeight: real, t0: real) returns (plan: Plan, anim: Option<Animation>)
      requires session.Active?
      modifies this`scrollY
      ensures plan == PlanPage(session.settings, scrollHeight, innerHeight)
      ensures plan.Dwell? ==> anim.None? && scrollY == old(scrollY)
      ensures plan.Scroll? ==> scrollY == 0.0 && anim == Some(Animation(0.0, plan.maxScroll, plan.durationMs, t0))
    {
      plan := PlanPage(session.settings, scrollHeight, innerHeight);
      if plan.Dwell? {
        anim := None;
      } else {
        scrollY := 0.0;
        anim := Some(Animation(0.0, plan.maxScroll, plan.durationMs, t0));
      }
    }

    /** One animation frame, `step(now)` of lines 105-113: a paused frame
        neither moves nor resolves; otherwise the page moves to the
        interpolated position, and the animation resolves at the deadline or
        within 2 pixels of the target. */
    method Step(a: Animation, now: real) returns (resolved: bool)
      requires session.Active?
      modifies this`scrollY
      ensures paused ==> !resolved && scrollY == old(scrollY)
      ensures !paused ==> scrollY == Position(a, Fraction(a, now)) && resolved == Resolves(a, now, scrollY)
      ensures !paused && now >= a.t0 ==> RealMin(a.from, a.to) <= scrollY <= RealMax(a.from, a.to)
    {
      if paused {
        return false;
      }
      var t := Fraction(a, now);
      scrollY := Position(a, t);
      resolved := t >= 1.0 || Abs(scrollY - a.to) < 2.0;
    }

    /** `goNext()` (lines 88-94): store the next index, then navigate to its
        entry with the kiosk flag. A non-string entry makes `url.includes`
        throw after the index is stored, and nothing is navigated. */
    method GoNext(now: int) returns (nextIdx: int)
      requires session.Active?
      modifies this`storage, this`href
      ensures nextIdx == NextIndex(session.idx, |session.playlist|)
      ensures storage == old(storage)[IndexKey := IntToString(nextIdx)]
      ensures var u := NextUrl(session.playlist, session.idx, session.settings, now);
              href == if u.Some? then u else old(href)
    {
      nextIdx := NextIndex(session.idx, |session.playlist|);
      storage := storage[IndexKey := IntToString(nextIdx)];
      var entry := Entry(session.playlist, nextIdx);
      if entry.Str? {
        href := Some(AddKioskParam(entry.s, session.settings.cacheBust, now));
      }
    }
  }
}
