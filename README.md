# Kiosk playback and controls

A model of the kiosk mode of a static web site. The model covers two scripts.

`js/kiosk-runtime.js` turns a page into one step of an unattended slideshow. On every page load it does this:

- It reads a playlist, a configuration and an index from `localStorage`.
- It works out which entry of the playlist the current page is, and stores that index back.
- After a top pause, it either dwells on a short page or scrolls a long one from top to bottom at a set speed.
- It then navigates to the next entry, adding the `kiosk=1` flag and an optional cache-busting timestamp to the URL.

The runtime also keeps its own pause flag, which the `KeyP` key toggles.

`js/jwg-kiosk-controls.js` keeps a second, separate pause flag. The `kiosk-paused` class on the document body mirrors that flag. The script also injects a help overlay whose `hidden` class h/H toggles, and Space toggles the pause flag.

Modules:

- `Wrappers`: the `Option` type.
- `JsValues`: the JavaScript values that `JSON.parse` yields, and `Number(v)`. Also property reads that throw on `null`, `localStorage` as a string map, and the part of `URLSearchParams` the next page uses to read its `kiosk` flag.
- `Decimal`: `String(i)` and `parseInt(s, 10)` on integers, with their round trip.
- `KioskRuntime`: the decisions of a page load, as functions of what the page reads:
  - whether kiosk mode runs, with which settings and which index;
  - the next index and the next URL;
  - dwell or scroll;
  - the animation's fraction, position and resolution.
- `KioskPage`: the state the runtime changes in place. Class `Page` holds the storage, the navigation target, the scroll position and the runtime's pause flag.
- `KioskControls`: the controls as functions on a `ControlsState`, plus class `Controls`, whose methods follow those functions in place.

Numbers are exact reals. Indexes and the `Date.now()` timestamp are integers; the `performance.now()` times of the animation are reals. JavaScript's `%` is written out, truncating toward zero, so a negative stored index behaves as it does in the browser. `JSON.parse` and the string-to-number grammar of `Number(string)` are parameters: `parseJson` returns `None` where `JSON.parse` throws. `Date.now()`, `performance.now()`, the page measurements and the query value are also parameters.

Where the code's behaviour is not what one might expect, the model follows the code:

- A stored index outside the playlist is used as it is. It is not clamped. A stored index below -1 gives a next index of 0 or less; a negative next index reads `undefined`, which throws in `addKioskParam`. A stored -1 gives 0, a real entry.
- A page scrolls when its maximum scroll equals the minimum: the test is `maxScroll < minScrollPx`.
- The animation measures time from a fixed `t0`. Time spent paused is not subtracted, so after a long pause the next unpaused frame jumps to the end.
- The two pause flags are independent. The runtime never reads `window.isKioskPaused`.
- A `null` configuration makes `config.speed` throw, so kiosk mode stops before the index is stored (`Boot.ConfigError`).
- A `kiosk` field already in a playlist entry's query comes first and wins. A `#` fragment in an entry swallows the appended flag.
- A key press is not debounced: every keydown event toggles.
- There is no transition veil, no title map, no arrival cover and no exit key combination in these scripts.

## Model

| member | source | states |
|---|---|---|
| `Decimal.NatToString` | js/kiosk-runtime.js:50 | the decimal text of a natural number is non-empty, all digits, starts with '0' only for 0, and is exactly "0" for 0 |
| `Decimal.IntToString` | js/kiosk-runtime.js:90 | `String(i)` starts with '-' exactly when i is negative; every other character is a digit |
| `Decimal.DigitPrefix` | js/kiosk-runtime.js:34 | parseInt reads the longest run of leading digits: a prefix, all digits, followed by a non-digit or the end |
| `Decimal.TrimStart` | js/kiosk-runtime.js:34 | parseInt skips exactly the leading JavaScript white space: every dropped character is white space, and the rest does not start with any |
| `Decimal.TrimStartIsSuffix` | js/kiosk-runtime.js:34 | what is left after the white space is a suffix of the input: only a prefix is dropped |
| `Decimal.DigitsReadBack` | js/kiosk-runtime.js:34 | the digits of a natural number, followed by a non-digit or nothing, are read back as that number |
| `Decimal.ParseIntOfIntToString` | js/kiosk-runtime.js:34 | the stored text of i, even when followed by text that does not start with a digit, parses back to i |
| `Decimal.ParseIntRoundTrip` | js/kiosk-runtime.js:50 | `parseInt(String(i), 10) == i` for every integer index |
| `Decimal.IntToStringInjective` | js/kiosk-runtime.js:90 | distinct indexes are stored as distinct text |
| `Decimal.ParseInt` | js/kiosk-runtime.js:34 | `parseInt(s, 10)` is a number exactly when a digit follows the leading white space and the optional sign; otherwise NaN, which line 47 replaces by 0 |
| `Decimal.ParseSigned` | js/kiosk-runtime.js:34 | after the white space: a number exactly when a digit follows the optional sign, negative only after '-' |
| `Decimal.ParseDigits` | js/kiosk-runtime.js:34 | a non-negative number exactly when the text starts with a digit |
| `JsValues.ToNumber` | js/kiosk-runtime.js:132 | `Number(v)`: undefined and objects give NaN, null gives 0, a number is itself |
| `JsValues.GetProperty` | js/kiosk-runtime.js:38-42 | reading a property throws exactly on null and undefined; on an object a missing key reads undefined |
| `JsValues.StoredOr` | js/kiosk-runtime.js:34 | `getItem(key)` or the fallback: a missing or empty entry gives the fallback, any other entry itself |
| `JsValues.ReadJson` | js/kiosk-runtime.js:134-136 | `readJson`: a missing or empty entry (`JSON.parse('')` throws) or a parse failure gives the fallback, a parsed entry its value |
| `JsValues.Before` | js/kiosk-runtime.js:3-4 | the text before the first separator: a prefix that does not hold the separator and is followed by it or the end |
| `JsValues.After` | js/kiosk-runtime.js:3-4 | the text after the first separator exists exactly when the separator occurs, and with the text before it rebuilds the input |
| `JsValues.SplitOn` | js/kiosk-runtime.js:3-4 | the query splits into one or more fields, none holding the separator, the first being the text before the first separator |
| `JsValues.QueryOf` | js/kiosk-runtime.js:3 | `location.search` without its '?': empty when no '?' comes before the fragment, otherwise the text that, after the first '?', rebuilds the URL up to the fragment |
| `JsValues.QueryGet` | js/kiosk-runtime.js:3-4 | `new URLSearchParams(location.search).get(name)` finds a value only for a URL with a '?' before its fragment |
| `JsValues.FieldValue` | js/kiosk-runtime.js:4 | `qs.get(name)` finds a value only when some non-empty field has that name |
| `KioskRuntime.ReplaceBackslashes` | js/kiosk-runtime.js:140 | every backslash becomes '/', every other character and the length are unchanged |
| `KioskRuntime.NormalisePath` | js/kiosk-runtime.js:138-144 | the path has no backslash and is never empty; "" and "/" give `index.html`; one leading '/' is dropped; a path without a leading '/' has only its backslashes replaced |
| `KioskRuntime.Num` | js/kiosk-runtime.js:132 | `num(v, fb)`: `Number(v)` whenever that is finite, else the fallback; undefined gives the fallback, null gives 0 |
| `KioskRuntime.ResolveSettings` | js/kiosk-runtime.js:38-42 | the settings fail exactly on a null or undefined configuration; otherwise each of speed, dwell, toppause, bottompause and minscroll is `num` of its own key with its own default (80, 10000, 700, 700, 80); cache busting is off exactly for the boolean `false` |
| `KioskRuntime.ResolveSettingsDefaults` | js/kiosk-runtime.js:38-42 | a configuration that sets none of the keys gives 80, 10000, 700, 700, 80 and cache busting on |
| `KioskRuntime.NullSettingIsZero` | js/kiosk-runtime.js:132 | a stored `null` setting gives 0, not the default |
| `KioskRuntime.FirstIndexOf` | js/kiosk-runtime.js:46 | `findIndex`: -1 when the path is absent, otherwise a position holding the path with no earlier one |
| `KioskRuntime.SavedIndex` | js/kiosk-runtime.js:34 | with no stored index the saved index is 0 |
| `KioskRuntime.Reconcile` | js/kiosk-runtime.js:45-47 | a path in the playlist gives its first position whatever was stored; otherwise the stored index, or 0 for NaN |
| `KioskRuntime.StartSession` | js/kiosk-runtime.js:3-47 | a load is not in kiosk mode when the query value is not "1" or no playlist is stored |
| `KioskRuntime.Decide` | js/kiosk-runtime.js:32-47 | kiosk mode runs exactly for the flag "1", a non-empty array playlist and a configuration that is not null; a null configuration is the error case; a running session has the stored playlist, the resolved settings and the reconciled index |
| `KioskRuntime.StoredIndexReadsBack` | js/kiosk-runtime.js:34-50 | an index stored with `String` reads back with parseInt as itself |
| `KioskRuntime.IndexWrite` | js/kiosk-runtime.js:32-50 | storing an index changes nothing a load reads except the saved index, which becomes the stored one |
| `KioskRuntime.ReconcileStored` | js/kiosk-runtime.js:45-47 | against a stored index n: an absent path gives n; a path that is the entry at n gives its first position, which is n unless an earlier entry repeats it |
| `KioskRuntime.ReloadResumes` | js/kiosk-runtime.js:45-50 | after line 50 stores the index, reloading the same page boots to the same session |
| `KioskRuntime.NextLoadContinues` | js/kiosk-runtime.js:88-90 | after goNext stores the next index, the next page keeps the playlist and settings and runs at that index, unless an earlier duplicate entry takes precedence |
| `KioskRuntime.JsRemainder` | js/kiosk-runtime.js:89 | JavaScript's `%`: dividend = divisor × truncated quotient + remainder, and the remainder has the dividend's sign and is smaller than the divisor |
| `KioskRuntime.JsRemainderOfNegative` | js/kiosk-runtime.js:89 | `-4 % 3` is -1 in JavaScript, not 2 |
| `KioskRuntime.NextIndex` | js/kiosk-runtime.js:89 | the next index is in range from any index of -1 or more; from -1 on it is (idx + 1) mod n: idx+1 inside the playlist, 0 after the last entry and for a one-entry playlist, and a stored index of n or more wraps; below -1 it is 0 or negative |
| `KioskRuntime.AdvanceCompose` | js/kiosk-runtime.js:89 | j advances followed by k advances are j+k advances |
| `KioskRuntime.AdvanceWithoutWrap` | js/kiosk-runtime.js:89 | advances that stay inside the playlist add up |
| `KioskRuntime.AdvanceCycle` | js/kiosk-runtime.js:88-94 | from an index in range, as many advances as the playlist is long return to that index |
| `KioskRuntime.AddKioskParam` | js/kiosk-runtime.js:96-100 | the result is the URL plus 8 characters for the separator and `kiosk=1`, plus `&kiosk_ts=` and the stamp only with cache busting |
| `KioskRuntime.AddKioskParamLayout` | js/kiosk-runtime.js:96-100 | the URL is kept as a prefix, then '&' when it has a '?' and '?' otherwise, then `kiosk=1`, then the `&kiosk_ts=` stamp only with cache busting |
| `KioskRuntime.Entry` | js/kiosk-runtime.js:92 | `playlist[i]` is the entry in range and `undefined` outside it |
| `KioskRuntime.NextUrl` | js/kiosk-runtime.js:92-93 | there is a URL to navigate to exactly when the entry at the next index is a string, and it is that entry with the kiosk parameter |
| `KioskRuntime.NextUrlExists` | js/kiosk-runtime.js:88-94 | from an index of -1 or more in a playlist of strings there is always a next URL |
| `KioskRuntime.SplitAppend` | js/kiosk-runtime.js:97-99 | joining two texts with '&' joins their fields, so appended fields follow the existing ones |
| `KioskRuntime.FieldValueAppend` | js/kiosk-runtime.js:4 | `get` on joined fields takes the first list's value when it has one, and the second's otherwise |
| `KioskRuntime.QueryExtended` | js/kiosk-runtime.js:97-99 | appending after '&' to a URL with a query and no fragment extends the query by the appended text |
| `KioskRuntime.QueryStarted` | js/kiosk-runtime.js:97-99 | appending after '?' to a URL with no query and no fragment makes the appended text the whole query |
| `KioskRuntime.NoQueryFindsNothing` | js/kiosk-runtime.js:3-4 | a URL with no '?' before its fragment has an empty query, in which no name has a value |
| `KioskRuntime.FlagFieldReads` | js/kiosk-runtime.js:99 | the `kiosk=1` field, with or without the stamp after it, reads back as `kiosk` = "1" |
| `KioskRuntime.NameAndValue` | js/kiosk-runtime.js:99 | a field `name=value` reads back as that name and value |
| `KioskRuntime.KioskParamActivatesNextPage` | js/kiosk-runtime.js:96-100 | for a URL without a fragment, the next page reads `kiosk` as "1", unless the URL already had a `kiosk` field, which then wins |
| `KioskRuntime.StampHasNoHash` | js/kiosk-runtime.js:98 | the timestamp text holds no '#' |
| `KioskRuntime.KioskParamLostBehindFragment` | js/kiosk-runtime.js:96-99 | for an entry with a '#', the flag lands in the fragment and the next page reads `kiosk` as the entry itself has it; with no '?' before the '#', as in "a.html#top", it finds no value |
| `KioskRuntime.MaxScroll` | js/kiosk-runtime.js:71 | the maximum scroll is 0 or the excess height, and at least both |
| `KioskRuntime.PlanPage` | js/kiosk-runtime.js:71-81 | dwell for the dwell time exactly when the page scrolls less than the minimum; otherwise the scroll time × max(10, speed) = distance × 1000 |
| `KioskRuntime.ScrollDuration` | js/kiosk-runtime.js:81 | the duration at a rate of at least 10 px/s is non-negative, at most 100 ms per pixel, and covers the distance at that rate |
| `KioskRuntime.ThresholdScrolls` | js/kiosk-runtime.js:73 | a page whose maximum scroll equals the minimum scrolls |
| `KioskRuntime.TwoPageScenario` | js/kiosk-runtime.js:32-100 | speed 100 and a 500-pixel page on "a.html" of ["a.html", "b.html"]: index 0, a 5000 ms scroll, next index 1 and the URL `b.html?kiosk=1&kiosk_ts=<now>` |
| `KioskRuntime.Fraction` | js/kiosk-runtime.js:108 | the fraction is at most 1, non-negative from t0 on, and reaches 1 exactly when max(1, duration) has passed; up to then it is the elapsed time divided by max(1, duration) |
| `KioskRuntime.FractionMonotone` | js/kiosk-runtime.js:108 | the fraction never decreases as time advances |
| `KioskRuntime.Position` | js/kiosk-runtime.js:109 | for a fraction in [0, 1] the position lies between from and to, and is from at 0 and to at 1 |
| `KioskRuntime.ConstantSpeed` | js/kiosk-runtime.js:78-82 | until the deadline the page moves at constant speed: between two frames it covers (to - from) times the elapsed share of the duration |
| `KioskRuntime.Resolves` | js/kiosk-runtime.js:112 | line 112's test: the fraction has reached 1, or the page is within 2 pixels of the target (`Math.abs(window.scrollY - to) < 2`) |
| `KioskRuntime.ResolvesByDeadline` | js/kiosk-runtime.js:112 | an unpaused frame resolves once the duration has passed, and earlier only within 2 pixels of the target |
| `KioskRuntime.ToleranceEndsEarly` | js/kiosk-runtime.js:102-117 | `animateScroll(0, 1000, 2000)` resolves exactly when more than 1996 ms have passed |
| `KioskPage.Page.Load` | js/kiosk-runtime.js:32-50 | the load decides the session and, when kiosk mode runs, stores the reconciled index; not paused, no navigation yet |
| `KioskPage.Page.OnKeyDown` | js/kiosk-runtime.js:53-60 | KeyP flips the runtime's pause flag; every other key leaves it |
| `KioskPage.Page.Measure` | js/kiosk-runtime.js:71-81 | the plan is `PlanPage` of the measurements; a scroll resets the page to the top and starts an animation from 0 to the maximum scroll |
| `KioskPage.Page.Step` | js/kiosk-runtime.js:105-113 | a paused frame neither moves nor resolves; an unpaused frame moves to the interpolated position, between from and to, and resolves by line 112 |
| `KioskPage.Page.GoNext` | js/kiosk-runtime.js:88-94 | stores the next index, leaving every other entry, and navigates to the next URL; a non-string entry throws after the store and does not navigate |
| `KioskControls.Toggle` | js/jwg-kiosk-controls.js:24 | `classList.toggle(c)` flips membership of c and leaves every other class |
| `KioskControls.Initial` | js/jwg-kiosk-controls.js:88-90 | the script starts unpaused with the body's own classes and a hidden help overlay; it starts in sync exactly when the body does not already carry `kiosk-paused` |
| `KioskControls.AfterPause` | js/jwg-kiosk-controls.js:8-11 | paused, the body carries `kiosk-paused`, other classes and the help overlay are unchanged |
| `KioskControls.AfterResume` | js/jwg-kiosk-controls.js:13-16 | not paused, the body lacks `kiosk-paused`, other classes and the help overlay are unchanged |
| `KioskControls.AfterTogglePause` | js/jwg-kiosk-controls.js:18-20 | the flag flips, and the flag and the class end in sync; nothing else changes |
| `KioskControls.AfterToggleHelp` | js/jwg-kiosk-controls.js:22-25 | `hidden` flips on the help element when it exists, with no other change; without it nothing changes |
| `KioskControls.AfterKey` | js/jwg-kiosk-controls.js:105-113 | Space flips the pause flag, h/H toggles help, any other key changes nothing, and sync is kept |
| `KioskControls.PauseIdempotent` | js/jwg-kiosk-controls.js:8-11 | pausing twice is pausing once |
| `KioskControls.ResumeIdempotent` | js/jwg-kiosk-controls.js:13-16 | resuming twice is resuming once |
| `KioskControls.TogglePauseTwice` | js/jwg-kiosk-controls.js:18-20 | from a state in sync, two toggles restore it |
| `KioskControls.ToggleHelpTwice` | js/jwg-kiosk-controls.js:22-25 | two help toggles restore the state |
| `KioskControls.KeyDispatch` | js/jwg-kiosk-controls.js:105-113 | Space alone is togglePause, h/H alone is toggleHelp, any other key is a no-op |
| `KioskControls.SyncAlongKeys` | js/jwg-kiosk-controls.js:6-20 | any run of key events keeps the flag and the `kiosk-paused` class in sync |
| `KioskControls.KeysParity` | js/jwg-kiosk-controls.js:105-113 | after a run of keys, paused and hidden have each flipped once per Space or h/H press, that is by the parity of their counts |
| `KioskControls.InitialRun` | js/jwg-kiosk-controls.js:88-113 | from the script's start, paused (and marked so) exactly after an odd number of Space presses, with help shown exactly after an odd number of h/H presses |
| `KioskControls.Controls.constructor` | js/jwg-kiosk-controls.js:6-100 | the fields start as `Initial` describes |
| `KioskControls.Controls.PauseKiosk` | js/jwg-kiosk-controls.js:8-11 | the new state is `AfterPause` of the old |
| `KioskControls.Controls.ResumeKiosk` | js/jwg-kiosk-controls.js:13-16 | the new state is `AfterResume` of the old |
| `KioskControls.Controls.TogglePause` | js/jwg-kiosk-controls.js:18-20 | the new state is `AfterTogglePause` of the old |
| `KioskControls.Controls.ToggleHelp` | js/jwg-kiosk-controls.js:22-25 | the new state is `AfterToggleHelp` of the old |
| `KioskControls.Controls.OnKeyDown` | js/jwg-kiosk-controls.js:105-113 | preventDefault is called exactly for Space, and the new state is `AfterKey` of the old |
| `KioskControls.Controls.IsKioskPaused` | js/jwg-kiosk-controls.js:118-120 | returns the flag without changing anything; in sync, that is whether the body carries `kiosk-paused` |

## Left out

- The fullscreen keep-alive (js/kiosk-runtime.js:6-29) is left out. It only calls browser APIs and swallows their failures.
- The timers are left out: the `load` listener, `setTimeout`, `requestAnimationFrame` scheduling and `sleep`. A frame is one `Step` call, with its time as a parameter.
- `pauseWait` (js/kiosk-runtime.js:119-129) only polls the wall clock. Its deadline is fixed at entry, so pausing does not lengthen a wait. It is not modelled.
- The `run` sequence (js/kiosk-runtime.js:68-86) is left out as a whole. Its steps are modelled: `Measure`, then `Step` frames, then `GoNext`.
- `JSON.parse` and the ECMAScript string-to-number grammar are parameters. Their own behaviour is not modelled.
- URLSearchParams is modelled without percent-decoding and without '+' as space. The next page's `location.search` is taken as the query of the URL navigated to. Relative URL resolution against the current page is not modelled.
- The next page's `location.pathname` is a free parameter of `NextLoadContinues`, since it depends on how the browser resolves the URL.
- Floating point is not modelled. `String(i)` of an index of 1e21 or more uses exponent notation. `parseInt` of a digit run beyond the double range gives Infinity, which line 47 treats as NaN. Durations and positions are exact reals.
- Browser scroll clamping and rounding are not modelled: `window.scrollY` is the position the frame assigned.
- A playlist entry that is an array is treated as throwing in `NextUrl`. In the browser, `Array.prototype.includes` exists, so such an entry would navigate to its string form.
- The CSS and HTML that js/jwg-kiosk-controls.js:30-100 injects are cosmetic and left out. Only the help element's class list is kept.
- The help element is always found once the script has run. The `None` case of `ControlsState.help` models the `if (el)` test, but no operation of the model reaches it.
