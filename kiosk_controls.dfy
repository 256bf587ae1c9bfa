/** The pause and help controls of js/jwg-kiosk-controls.js: a paused flag
    mirrored by the `kiosk-paused` class on the document body, a help overlay
    whose `hidden` class is toggled, and the keydown handler that drives both.

    The functions on ControlsState say what each operation does to the whole
    state; the class Controls holds the same state in fields and changes it in
    place, each method proved to follow its function. A `classList` is a set
    of class names. */
module KioskControls {
  import opened Wrappers

  const PausedClass := "kiosk-paused"
  const HiddenClass := "hidden"
  const HelpClass := "kiosk-help"

  /** The controls' state: the flag, the body's classes and the classes of the
      help element (`None` when `getElementById('kiosk-help')` finds nothing). */
  datatype ControlsState = ControlsState(paused: bool, bodyClasses: set<string>, help: Option<set<string>>)

  /** A keydown event: its physical `code` and its produced `key`. */
  datatype KeyEvent = KeyEvent(code: string, key: string)

  /** `classList.toggle(c)`: c is in the result exactly when it was not in
      classes, and no other class changes. */
  function Toggle(classes: set<string>, c: string): (r: set<string>)
    ensures c in r <==> c !in classes
    ensures r - {c} == classes - {c}
  {
    if c in classes then classes - {c} else classes + {c}
  }

  /** The flag agrees with the body class that shows "Paused". */
  predicate InSync(s: ControlsState) {
    s.paused <==> PausedClass in s.bodyClasses
  }

  /** The state when the script has run: not paused, the body's classes as
      the page left them, and the help overlay appended with the classes
      `kiosk-help hidden`, so it starts hidden. */
  function Initial(bodyClasses0: set<string>): (s: ControlsState)
    ensures !s.paused && s.bodyClasses == bodyClasses0
    ensures s.help.Some? && HiddenClass in s.help.value && HelpClass in s.help.value
    ensures InSync(s) <==> PausedClass !in bodyClasses0
  {
    ControlsState(false, bodyClasses0, Some({HelpClass, HiddenClass}))
  }

  /** `pauseKiosk()`: paused, and the body shows it; every other class and
      the help overlay are left alone. */
  function AfterPause(s: ControlsState): (r: ControlsState)
    ensures r.paused && InSync(r)
    ensures r.bodyClasses - {PausedClass} == s.bodyClasses - {PausedClass}
    ensures r.help == s.help
  {
    ControlsState(true, s.bodyClasses + {PausedClass}, s.help)
  }

  /** `resumeKiosk()`: running, and the body no longer shows "Paused"; every
      other class and the help overlay are left alone. */
  function AfterResume(s: ControlsState): (r: ControlsState)
    ensures !r.paused && InSync(r)
    ensures r.bodyClasses - {PausedClass} == s.bodyClasses - {PausedClass}
    ensures r.help == s.help
  {
    ControlsState(false, s.bodyClasses - {PausedClass}, s.help)
  }

  /** `togglePause()`: resume when paused, pause otherwise. */
  function AfterTogglePause(s: ControlsState): (r: ControlsState)
    ensures r.paused == !s.paused && InSync(r)
    ensures r.bodyClasses - {PausedClass} == s.bodyClasses - {PausedClass}
    ensures r.help == s.help
  {
    if s.paused then AfterResume(s) else AfterPause(s)
  }

  /** `toggleHelp()`: flip `hidden` on the help element when there is one;
      nothing else changes, and without the element nothing changes at all. */
  function AfterToggleHelp(s: ControlsState): (r: ControlsState)
    ensures r.paused == s.paused && r.bodyClasses == s.bodyClasses
    ensures r.help.Some? <==> s.help.Some?
    ensures s.help.Some? ==> (HiddenClass in r.help.value <==> HiddenClass !in s.help.value)
    ensures s.help.Some? ==> r.help.value - {HiddenClass} == s.help.value - {HiddenClass}
  {
    match s.help
    case None => s
    case Some(classes) => s.(help := Some(Toggle(classes, HiddenClass)))
  }

  predicate IsPauseKey(e: KeyEvent) {
    e.code == "Space"
  }

  predicate IsHelpKey(e: KeyEvent) {
    e.key == "h" || e.key == "H"
  }

  /** The keydown handler (lines 105-113): Space toggles pause, then h or H
      toggles help; one event can do both, and any other key does nothing. */
  function AfterKey(s: ControlsState, e: KeyEvent): (r: ControlsState)
    ensures r.paused == (if IsPauseKey(e) then !s.paused else s.paused)
    ensures r.bodyClasses - {PausedClass} == s.bodyClasses - {PausedClass}
    ensures !IsPauseKey(e) ==> r.bodyClasses == s.bodyClasses
    ensures !IsHelpKey(e) ==> r.help == s.help
    ensures IsHelpKey(e) ==> r.help == AfterToggleHelp(s).help
    ensures InSync(s) ==> InSync(r)
  {
    var s1 := if IsPauseKey(e) then AfterTogglePause(s) else s;
    if IsHelpKey(e) then AfterToggleHelp(s1) else s1
  }

  /** The state after a run of keydown events, first event first. */
  function AfterKeys(s: ControlsState, es: seq<KeyEvent>): ControlsState
    decreases |es|
  {
    if es == [] then s else AfterKeys(AfterKey(s, es[0]), es[1..])
  }

  /** How many events of es press Space. */
  function PauseKeys(es: seq<KeyEvent>): nat {
    if es == [] then 0 else (if IsPauseKey(es[0]) then 1 else 0) + PauseKeys(es[1..])
  }

  /** How many events of es are h or H. */
  function HelpKeys(es: seq<KeyEvent>): nat {
    if es == [] then 0 else (if IsHelpKey(es[0]) then 1 else 0) + HelpKeys(es[1..])
  }

  /* ---- Properties ---- */

  /** Pausing twice is pausing once. */
  lemma PauseIdempotent(s: ControlsState)
    ensures AfterPause(AfterPause(s)) == AfterPause(s)
  {
  }

  /** Resuming twice is resuming once. */
  lemma ResumeIdempotent(s: ControlsState)
    ensures AfterResume(AfterResume(s)) == AfterResume(s)
  {
  }

  /** From a state in sync, two toggles restore it. (Out of sync, the first
      toggle already repairs the class, so the state is not restored.) */
  lemma TogglePauseTwice(s: ControlsState)
    requires InSync(s)
    ensures AfterTogglePause(AfterTogglePause(s)) == s
  {
    if s.paused {
      assert AfterTogglePause(AfterTogglePause(s)).bodyClasses == s.bodyClasses - {PausedClass} + {PausedClass};
    } else {
      assert AfterTogglePause(AfterTogglePause(s)).bodyClasses == s.bodyClasses + {PausedClass} - {PausedClass};
    }
  }

  /** Two help toggles restore the state. */
  lemma ToggleHelpTwice(s: ControlsState)
    ensures AfterToggleHelp(AfterToggleHelp(s)) == s
  {
    if s.help.Some? {
      var h := s.help.value;
      assert Toggle(Toggle(h, HiddenClass), HiddenClass) == h;
    }
  }

  /** Space toggles pause and leaves help; h or H toggles help and leaves
      pause; a key that is neither leaves the whole state. */
  lemma KeyDispatch(s: ControlsState, e: KeyEvent)
    ensures IsPauseKey(e) && !IsHelpKey(e) ==> AfterKey(s, e) == AfterTogglePause(s)
    ensures IsHelpKey(e) && !IsPauseKey(e) ==> AfterKey(s, e) == AfterToggleHelp(s)
    ensures !IsPauseKey(e) && !IsHelpKey(e) ==> AfterKey(s, e) == s
  {
  }

  /** Whatever keys are pressed, a state in sync stays in sync; in particular
      every state reached from the initial one over a body without
      `kiosk-paused` is in sync. */
  lemma {:induction false} SyncAlongKeys(s: ControlsState, es: seq<KeyEvent>)
    requires InSync(s)
    ensures InSync(AfterKeys(s, es))
    decreases |es|
  {
    if es != [] {
      SyncAlongKeys(AfterKey(s, es[0]), es[1..]);
    }
  }

  /** After a run of keys the controls are paused exactly when the run flipped
      the initial flag an odd number of times, and the help element (when
      there is one) is hidden exactly when the run flipped its initial
      visibility an odd number of times. */
  lemma {:induction false} KeysParity(s: ControlsState, es: seq<KeyEvent>)
    ensures AfterKeys(s, es).paused <==> (s.paused != (PauseKeys(es) % 2 == 1))
    ensures AfterKeys(s, es).help.Some? <==> s.help.Some?
    ensures s.help.Some? ==>
              (HiddenClass in AfterKeys(s, es).help.value <==> (HiddenClass in s.help.value) != (HelpKeys(es) % 2 == 1))
    decreases |es|
  {
    if es != [] {
      KeysParity(AfterKey(s, es[0]), es[1..]);
    }
  }

  /** From the script's initial state over a body without `kiosk-paused`, the
      kiosk is paused exactly after an odd number of Space presses, the body
      shows it, and the help is visible exactly after an odd number of h/H
      presses. */
  lemma InitialRun(bodyClasses0: set<string>, es: seq<KeyEvent>)
    requires PausedClass !in bodyClasses0
    ensures var r := AfterKeys(Initial(bodyClasses0), es);
            && (r.paused <==> PauseKeys(es) % 2 == 1)
            && (PausedClass in r.bodyClasses <==> PauseKeys(es) % 2 == 1)
            && r.help.Some? && (HiddenClass !in r.help.value <==> HelpKeys(es) % 2 == 1)
  {
    SyncAlongKeys(Initial(bodyClasses0), es);
    KeysParity(Initial(bodyClasses0), es);
  }

  /** The controls as the script keeps them: the closure's `kioskPaused`, the
      body's class list and the help element's class list. */
  class Controls {
    var kioskPaused: bool
    var bodyClasses: set<string>
    var helpClasses: Option<set<string>>

    function State(): ControlsState
      reads this
    {
      ControlsState(kioskPaused, bodyClasses, helpClasses)
    }

    /** Running the script over a body with the given classes. */
    constructor(bodyClasses0: set<string>)
      ensures State() == Initial(bodyClasses0)
    {
      kioskPaused := false;
      bodyClasses := bodyClasses0;
      helpClasses := Some({HelpClass, HiddenClass});
    }

    method PauseKiosk()
      modifies this
      ensures State() == AfterPause(old(State()))
    {
      kioskPaused := true;
      bodyClasses := bodyClasses + {PausedClass};
    }

    method ResumeKiosk()
      modifies this
      ensures State() == AfterResume(old(State()))
    {
      kioskPaused := false;
      bodyClasses := bodyClasses - {PausedClass};
    }

    method TogglePause()
      modifies this
      ensures State() == AfterTogglePause(old(State()))
    {
      if kioskPaused {
        ResumeKiosk();
      } else {
        PauseKiosk();
      }
    }

    method ToggleHelp()
      modifies this
      ensures State() == AfterToggleHelp(old(State()))
    {
      if helpClasses.Some? {
        helpClasses := Some(Toggle(helpClasses.value, HiddenClass));
      }
    }

    /** The keydown listener; the result says whether it calls
        `preventDefault()`, which it does for Space only. */
    method OnKeyDown(code: string, key: string) returns (preventDefault: bool)
      modifies this
      ensures preventDefault <==> code == "Space"
      ensures State() == AfterKey(old(State()), KeyEvent(code, key))
    {
      preventDefault := false;
      if code == "Space" {
        preventDefault := true;
        TogglePause();
      }
      if key == "h" || key == "H" {
        ToggleHelp();
      }
    }

    /** `window.isKioskPaused()`: the current flag, which in a state in sync is
        whether the body shows "Paused". */
    method IsKioskPaused() returns (p: bool)
      ensures p == kioskPaused
      ensures InSync(State()) ==> (p <==> PausedClass in bodyClasses)
    {
      p := kioskPaused;
    }
  }
}
