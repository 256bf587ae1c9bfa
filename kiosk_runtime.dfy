/** The decisions the kiosk runtime (js/kiosk-runtime.js) takes on every page
    load, as functions of its inputs: whether kiosk mode is on, the settings,
    the current path, the playlist index, dwell or scroll, the animation
    frames, and the next index and URL. The state the runtime changes in place
    (storage, location, scroll position, its pause flag) is in KioskPage. */
module KioskRuntime {
  import opened Wrappers
  import opened Decimal
  import opened JsValues

  const PlaylistKey: string := "jwg_kiosk_playlist"
  const ConfigKey: string := "jwg_kiosk_config"
  const IndexKey: string := "jwg_kiosk_idx"
  const HomePage: string := "index.html"

  function RealMax(x: real, y: real): real { if x >= y then x else y }
  function RealMin(x: real, y: real): real { if x <= y then x else y }
  function Abs(x: real): real { if x < 0.0 then -x else x }

  /* ---------------- Current path ---------------- */

  /** `s.replace(/\\/g, '/')`. */
  function ReplaceBackslashes(s: string): (r: string)
    ensures |r| == |s|
    ensures forall i | 0 <= i < |s| :: r[i] == (if s[i] == '\\' then '/' else s[i])
  {
    if s == [] then [] else [if s[0] == '\\' then '/' else s[0]] + ReplaceBackslashes(s[1..])
  }

  /** `normalisePath(pathname)`: backslashes become '/', one leading '/' is
      dropped, and an empty result is the home page. */
  function NormalisePath(pathname: string): (p: string)
    ensures p != [] && '\\' !in p
    ensures var q := ReplaceBackslashes(pathname); q == "" || q == "/" ==> p == HomePage
    ensures var q := ReplaceBackslashes(pathname); |q| >= 2 && q[0] == '/' ==> p == q[1..]
    ensures var q := ReplaceBackslashes(pathname); q != "" && q[0] != '/' ==> p == q
    ensures pathname != "" && pathname[0] != '/' && '\\' !in pathname ==> p == pathname
  {
    var q := ReplaceBackslashes(pathname);
    assert '\\' !in pathname ==> q == pathname;
    var r := if |q| > 0 && q[0] == '/' then q[1..] else q;
    if r == [] then HomePage else r
  }

  /* ---------------- Settings ---------------- */

  datatype Settings = Settings(speedPxPerSec: real, dwellMs: real, topPauseMs: real,
                               bottomPauseMs: real, minScrollPx: real, cacheBust: bool)

  /** The settings when the stored configuration sets nothing. */
  const Defaults := Settings(80.0, 10000.0, 700.0, 700.0, 80.0, true)

  /** `num(v, fallback)`: `Number(v)` when that is finite, else the fallback. */
  function Num(v: JsValue, fallback: real, strToNum: string -> JsNumber): (x: real)
    ensures x == fallback || ToNumber(v, strToNum) == Finite(x)
    ensures ToNumber(v, strToNum).Finite? ==> x == ToNumber(v, strToNum).value
    ensures !ToNumber(v, strToNum).Finite? ==> x == fallback
    ensures v.Undefined? ==> x == fallback
    ensures v.Num? && v.n.Finite? ==> x == v.n.value
    ensures v.Null? ==> x == 0.0
  {
    match ToNumber(v, strToNum)
    case Finite(x) => x
    case _ => fallback
  }

  /** Lines 38-42 and the cache-bust test of line 98. Reading a property of a
      `null` configuration throws (`None`). Cache busting is off only for the
      boolean `false`. */
  function ResolveSettings(config: JsValue, strToNum: string -> JsNumber): (r: Option<Settings>)
    ensures r.None? <==> config.Null? || config.Undefined?
    ensures r.Some? ==>
              && r.value.speedPxPerSec == Num(GetProperty(config, "speed").value, 80.0, strToNum)
              && r.value.dwellMs == Num(GetProperty(config, "dwell").value, 10000.0, strToNum)
              && r.value.topPauseMs == Num(GetProperty(config, "toppause").value, 700.0, strToNum)
              && r.value.bottomPauseMs == Num(GetProperty(config, "bottompause").value, 700.0, strToNum)
              && r.value.minScrollPx == Num(GetProperty(config, "minscroll").value, 80.0, strToNum)
    ensures r.Some? ==> (!r.value.cacheBust <==> GetProperty(config, "cachebust") == Some(Bool(false)))
  {
    if config.Null? || config.Undefined? then None
    else
      Some(Settings(
        Num(GetProperty(config, "speed").value, 80.0, strToNum),
        Num(GetProperty(config, "dwell").value, 10000.0, strToNum),
        Num(GetProperty(config, "toppause").value, 700.0, strToNum),
        Num(GetProperty(config, "bottompause").value, 700.0, strToNum),
        Num(GetProperty(config, "minscroll").value, 80.0, strToNum),
        GetProperty(config, "cachebust").value != Bool(false)))
  }

  /** A configuration that sets none of the six keys — the `{}` fallback, or any
      non-object value other than `null` — gives the defaults 80, 10000, 700,
      700, 80 and cache busting on. */
  lemma ResolveSettingsDefaults(config: JsValue, strToNum: string -> JsNumber)
    requires !config.Null? && !config.Undefined?
    requires config.Obj? ==> forall k | k in config.props ::
               k !in ["speed", "dwell", "toppause", "bottompause", "minscroll", "cachebust"]
    ensures ResolveSettings(config, strToNum) == Some(Defaults)
  {
    if config.Obj? {
      assert "speed" !in config.props && "dwell" !in config.props && "toppause" !in config.props;
      assert "bottompause" !in config.props && "minscroll" !in config.props;
      assert "cachebust" !in config.props;
    }
  }

  /** A stored `null` for a numeric key gives 0, not the default: `Number(null)` is 0. */
  lemma NullSettingIsZero(config: JsValue, strToNum: string -> JsNumber)
    requires config.Obj? && "dwell" in config.props && config.props["dwell"] == Null
    ensures ResolveSettings(config, strToNum).value.dwellMs == 0.0
  {
  }

  /* ---------------- Playlist index ---------------- */

  /** `playlist.findIndex(p => p === current)`. */
  function FirstIndexOf(playlist: seq<JsValue>, current: string): (k: int)
    ensures -1 <= k < |playlist|
    ensures k >= 0 ==> playlist[k] == Str(current)
    ensures forall j | 0 <= j < |playlist| && (k < 0 || j < k) :: playlist[j] != Str(current)
  {
    if playlist == [] then -1
    else if playlist[0] == Str(current) then 0
    else
      var k := FirstIndexOf(playlist[1..], current);
      if k < 0 then -1 else k + 1
  }

  /** The stored index as line 34 reads it: `parseInt(getItem(key) || '0', 10)`,
      `None` for NaN. */
  function SavedIndex(storage: map<string, string>): (saved: Option<int>)
    ensures IndexKey !in storage ==> saved == Some(0)
  {
    ParseIntRoundTrip(0);
    ParseInt(StoredOr(storage, IndexKey, "0"))
  }

  /** Lines 45-47: the first position of the current path in the playlist,
      whatever was stored; otherwise the stored index, or 0 when that is NaN.
      The stored index is not range-checked. */
  function Reconcile(playlist: seq<JsValue>, current: string, saved: Option<int>): (idx: int)
    ensures Str(current) in playlist ==>
              0 <= idx < |playlist| && playlist[idx] == Str(current)
              && forall j | 0 <= j < idx :: playlist[j] != Str(current)
    ensures Str(current) !in playlist ==> idx == saved.GetOr(0)
  {
    var k := FirstIndexOf(playlist, current);
    if k >= 0 then k else if saved.Some? then saved.value else 0
  }

  /** The outcome of lines 3-47 on a page load: not in kiosk mode (the query
      value is not "1", or the playlist is not a non-empty array), a TypeError
      from a `null` configuration, or running with a playlist, settings and index. */
  datatype Boot = Inactive | ConfigError | Active(playlist: Playlist, settings: Settings, idx: int)

  /** Kiosk mode runs only past line 36, so its playlist is never empty. */
  type Playlist = s: seq<JsValue> | |s| > 0 witness [Undefined]

  /** Lines 4 and 32-47 on what they read: the query value of `kiosk`, the
      stored playlist and configuration as `readJson` returned them, the
      normalised path and the stored index. Kiosk mode runs only for the
      query value "1" and a non-empty array playlist, and then fails only
      when the configuration is `null` (or `undefined`). */
  function Decide(kiosk: Option<string>, playlist: JsValue, config: JsValue, current: string,
                  saved: Option<int>, strToNum: string -> JsNumber): (b: Boot)
    ensures b.Active? <==>
              kiosk == Some("1") && playlist.Arr? && |playlist.elems| > 0 && ResolveSettings(config, strToNum).Some?
    ensures b.ConfigError? <==>
              kiosk == Some("1") && playlist.Arr? && |playlist.elems| > 0 && ResolveSettings(config, strToNum).None?
    ensures b.Active? ==>
              && b.playlist == playlist.elems && |b.playlist| > 0
              && Some(b.settings) == ResolveSettings(config, strToNum)
              && b.idx == Reconcile(b.playlist, current, saved)
  {
    if kiosk != Some("1") || !playlist.Arr? || |playlist.elems| == 0 then Inactive
    else match ResolveSettings(config, strToNum)
      case None => ConfigError
      case Some(settings) => Active(playlist.elems, settings, Reconcile(playlist.elems, current, saved))
  }

  /** A page load with the given query value, storage and `location.pathname`. */
  function StartSession(kiosk: Option<string>, storage: map<string, string>, pathname: string,
                        parseJson: string -> Option<JsValue>, strToNum: string -> JsNumber): (b: Boot)
    ensures kiosk != Some("1") ==> b.Inactive?
    ensures PlaylistKey !in storage ==> b.Inactive?
  {
    Decide(kiosk, ReadJson(storage, PlaylistKey, parseJson, Arr([])), ReadJson(storage, ConfigKey, parseJson, Obj(map[])),
           NormalisePath(pathname), SavedIndex(storage), strToNum)
  }

  /** A stored index reads back as stored. */
  lemma StoredIndexReadsBack(storage: map<string, string>, i: int)
    ensures SavedIndex(storage[IndexKey := IntToString(i)]) == Some(i)
  {
    ParseIntRoundTrip(i);
  }

  /** Storing an index changes nothing a load reads but the saved index,
      which then reads back as stored. */
  lemma IndexWrite(kiosk: Option<string>, storage: map<string, string>, i: int, pathname: string,
                   parseJson: string -> Option<JsValue>, strToNum: string -> JsNumber)
    ensures StartSession(kiosk, storage[IndexKey := IntToString(i)], pathname, parseJson, strToNum)
            == Decide(kiosk, ReadJson(storage, PlaylistKey, parseJson, Arr([])),
                      ReadJson(storage, ConfigKey, parseJson, Obj(map[])), NormalisePath(pathname), Some(i), strToNum)
  {
    var storage' := storage[IndexKey := IntToString(i)];
    assert ReadJson(storage', PlaylistKey, parseJson, Arr([])) == ReadJson(storage, PlaylistKey, parseJson, Arr([]));
    assert ReadJson(storage', ConfigKey, parseJson, Obj(map[])) == ReadJson(storage, ConfigKey, parseJson, Obj(map[]));
    StoredIndexReadsBack(storage, i);
  }

  /** Line 50 writes the reconciled index back; a reload of the same page with
      that storage boots to the same session, so a reload resumes where it was. */
  lemma ReloadResumes(kiosk: Option<string>, storage: map<string, string>, pathname: string,
                      parseJson: string -> Option<JsValue>, strToNum: string -> JsNumber)
    requires StartSession(kiosk, storage, pathname, parseJson, strToNum).Active?
    ensures var b := StartSession(kiosk, storage, pathname, parseJson, strToNum);
            StartSession(kiosk, storage[IndexKey := IntToString(b.idx)], pathname, parseJson, strToNum) == b
  {
    var b := StartSession(kiosk, storage, pathname, parseJson, strToNum);
    IndexWrite(kiosk, storage, b.idx, pathname, parseJson, strToNum);
  }

  /** Reconciling against a stored index n: a path absent from the playlist
      gives n; a path that is the entry at n gives its first position, which
      is n unless an earlier entry repeats it. */
  lemma ReconcileStored(playlist: seq<JsValue>, current: string, n: int)
    ensures Str(current) !in playlist ==> Reconcile(playlist, current, Some(n)) == n
    ensures 0 <= n < |playlist| && playlist[n] == Str(current) ==>
              var k := Reconcile(playlist, current, Some(n));
              && 0 <= k <= n && playlist[k] == Str(current)
              && ((forall j | 0 <= j < n :: playlist[j] != Str(current)) ==> k == n)
  {
    if 0 <= n < |playlist| && playlist[n] == Str(current) {
      assert Str(current) in playlist;
    }
  }

  /** After `goNext()` stores the next index (line 90), the page it opens
      boots with the same playlist and settings. Its index is the stored one
      when its path is not in the playlist; when its path is the entry at
      the stored index, the index is that entry's first position, which is
      the stored index itself unless an earlier entry repeats it. */
  lemma NextLoadContinues(storage: map<string, string>, pathname: string, nextPathname: string,
                          parseJson: string -> Option<JsValue>, strToNum: string -> JsNumber)
    requires StartSession(Some("1"), storage, pathname, parseJson, strToNum).Active?
    ensures var b := StartSession(Some("1"), storage, pathname, parseJson, strToNum);
            var n := NextIndex(b.idx, |b.playlist|);
            var b' := StartSession(Some("1"), storage[IndexKey := IntToString(n)], nextPathname, parseJson, strToNum);
            var current := Str(NormalisePath(nextPathname));
            && b'.Active? && b'.playlist == b.playlist && b'.settings == b.settings
            && (current !in b.playlist ==> b'.idx == n)
            && (0 <= n < |b.playlist| && b.playlist[n] == current ==>
                  0 <= b'.idx <= n && b.playlist[b'.idx] == current
                  && ((forall j | 0 <= j < n :: b.playlist[j] != current) ==> b'.idx == n))
  {
    var b := StartSession(Some("1"), storage, pathname, parseJson, strToNum);
    var n := NextIndex(b.idx, |b.playlist|);
    IndexWrite(Some("1"), storage, n, nextPathname, parseJson, strToNum);
    ReconcileStored(b.playlist, NormalisePath(nextPathname), n);
  }

  /* ---------------- Advancing ---------------- */

  /** The quotient of a by n rounded toward zero. */
  function TruncatedQuotient(a: int, n: int): int
    requires n > 0
  {
    if a >= 0 then a / n else -((-a) / n)
  }

  /** JavaScript's `a % n` for n > 0: `a - n * q` for the quotient q rounded
      toward zero, so the remainder takes the sign of a. */
  function JsRemainder(a: int, n: int): (r: int)
    requires n > 0
    ensures a == n * TruncatedQuotient(a, n) + r
    ensures a >= 0 ==> 0 <= r < n
    ensures a < 0 ==> -n < r <= 0
    ensures 0 <= a < n ==> r == a
    ensures a == n ==> r == 0
  {
    if a >= 0 then
      EuclideanSmall(a, n);
      a % n
    else
      var b := -a;
      assert b == n * (b / n) + b % n;
      assert n * (-(b / n)) == -(n * (b / n));
      -(b % n)
  }

  /** Dafny's `%` on a non-negative dividend below n leaves it as it is.
      Kept as a lemma of its own so that JsRemainder's proof stays small. */
  lemma EuclideanSmall(a: int, n: int)
    requires n > 0 && a >= 0
    ensures a == n * (a / n) + a % n && 0 <= a % n < n
    ensures a < n ==> a / n == 0 && a % n == a
    ensures a == n ==> a % n == 0
  {
  }

  /** Dafny's `%` and JavaScript's agree on non-negative operands only:
      a stored index of -5 gives `(-5 + 1) % 3 == -1` in JavaScript. */
  lemma JsRemainderOfNegative()
    ensures JsRemainder(-4, 3) == -1 && (-4) % 3 == 2
  {
  }

  /** `(idx + 1) % playlist.length` (line 89). */
  function NextIndex(idx: int, n: int): (next: int)
    requires n >= 1
    ensures idx >= -1 ==> 0 <= next < n
    ensures idx < -1 ==> -n < next <= 0
    ensures n == 1 ==> next == 0
    ensures 0 <= idx < n - 1 ==> next == idx + 1
    ensures idx == n - 1 ==> next == 0
    ensures idx >= -1 ==> next == (idx + 1) % n
  {
    JsRemainder(idx + 1, n)
  }

  /** The index after k advances. */
  function Advance(idx: int, n: int, k: nat): int
    requires n >= 1
  {
    if k == 0 then idx else NextIndex(Advance(idx, n, k - 1), n)
  }

  lemma {:induction false} AdvanceCompose(idx: int, n: int, j: nat, k: nat)
    requires n >= 1
    ensures Advance(Advance(idx, n, j), n, k) == Advance(idx, n, j + k)
  {
    if k > 0 {
      AdvanceCompose(idx, n, j, k - 1);
    }
  }

  lemma {:induction false} AdvanceWithoutWrap(idx: int, n: int, k: nat)
    requires 0 <= idx && idx + k < n
    ensures Advance(idx, n, k) == idx + k
  {
    if k > 0 {
      AdvanceWithoutWrap(idx, n, k - 1);
    }
  }

  /** From an index in range, n advances through a playlist of length n return
      to the same index: the playlist is played as a cycle. */
  lemma AdvanceCycle(idx: int, n: int)
    requires 0 <= idx < n
    ensures Advance(idx, n, n) == idx
  {
    AdvanceWithoutWrap(idx, n, n - 1 - idx);
    assert Advance(idx, n, n - idx) == 0;
    AdvanceWithoutWrap(0, n, idx);
    AdvanceCompose(idx, n, n - idx, idx);
  }

  /** `playlist[i]`, which is `undefined` out of range. */
  function Entry(playlist: seq<JsValue>, i: int): (e: JsValue)
    ensures 0 <= i < |playlist| ==> e == playlist[i]
    ensures i < 0 || i >= |playlist| ==> e.Undefined?
  {
    if 0 <= i < |playlist| then playlist[i] else Undefined
  }

  /** `addKioskParam(url)` (lines 96-100), with `Date.now()` as `now`. */
  function AddKioskParam(url: string, cacheBust: bool, now: int): (r: string)
    ensures |r| == |url| + 8 + (if cacheBust then 10 + |IntToString(now)| else 0)
  {
    var sep := if '?' in url then "&" else "?";
    var cb := if cacheBust then "&kiosk_ts=" + IntToString(now) else "";
    url + sep + "kiosk=1" + cb
  }

  /** The URL is kept, then comes '&' when it already has a query and '?'
      otherwise, then the flag, then the stamp only with cache busting. */
  lemma AddKioskParamLayout(url: string, cacheBust: bool, now: int)
    ensures var r := AddKioskParam(url, cacheBust, now);
            && |r| >= |url| + 8 && r[..|url|] == url
            && r[|url|] == (if '?' in url then '&' else '?')
            && r[|url| + 1..|url| + 8] == "kiosk=1"
            && (!cacheBust ==> |r| == |url| + 8)
            && (cacheBust ==> r[|url| + 8..] == "&kiosk_ts=" + IntToString(now))
  {
  }

  /** Line 92: the URL the page navigates to, or `None` when the entry at the
      next index is not a string (or the index is negative and the entry is
      `undefined`), where `url.includes` throws a TypeError. */
  function NextUrl(playlist: seq<JsValue>, idx: int, settings: Settings, now: int): (u: Option<string>)
    requires |playlist| >= 1
    ensures u.Some? <==> Entry(playlist, NextIndex(idx, |playlist|)).Str?
    ensures u.Some? ==> u == Some(AddKioskParam(Entry(playlist, NextIndex(idx, |playlist|)).s,
                                                settings.cacheBust, now))
  {
    match Entry(playlist, NextIndex(idx, |playlist|))
    case Str(url) => Some(AddKioskParam(url, settings.cacheBust, now))
    case _ => None
  }

  /** From an index of -1 or more into a playlist of strings, there is always a next URL. */
  lemma NextUrlExists(playlist: seq<JsValue>, idx: int, settings: Settings, now: int)
    requires |playlist| >= 1 && idx >= -1
    requires forall i | 0 <= i < |playlist| :: playlist[i].Str?
    ensures NextUrl(playlist, idx, settings, now).Some?
  {
  }

  /* ---------------- Reading the next URL back ---------------- */

  lemma {:induction false} BeforeAppend(s: string, t: string, c: char)
    ensures c in s ==> Before(s + t, c) == Before(s, c)
    ensures c !in s ==> Before(s + t, c) == s + Before(t, c)
    decreases |s|
  {
    if s == [] {
      assert s + t == t;
    } else if s[0] != c {
      assert (s + t)[1..] == s[1..] + t;
      BeforeAppend(s[1..], t, c);
      assert c in s ==> c in s[1..];
    }
  }

  lemma AfterAppend(s: string, t: string, c: char)
    requires c in s
    ensures After(s + t, c) == Some(After(s, c).value + t)
  {
    BeforeAppend(s, t, c);
    var b := Before(s, c);
    assert (s + t)[|b| + 1..] == s[|b| + 1..] + t;
  }

  lemma AfterFirst(s: string, t: string, c: char)
    requires c !in s
    ensures After(s + [c] + t, c) == Some(t)
  {
    BeforeAppend(s, [c] + t, c);
    assert s + [c] + t == s + ([c] + t);
  }

  lemma SplitOnUnfold(s: string, c: char)
    requires c in s
    ensures SplitOn(s, c) == [Before(s, c)] + SplitOn(After(s, c).value, c)
  {
  }

  lemma SplitOnWithout(s: string, c: char)
    requires c !in s
    ensures SplitOn(s, c) == [s]
  {
  }

  /** Joining two texts with the separator joins their fields. */
  lemma {:induction false} SplitAppend(a: string, b: string, c: char)
    ensures SplitOn(a + [c] + b, c) == SplitOn(a, c) + SplitOn(b, c)
    decreases |a|, 1
  {
    if c in a {
      SplitAppendInFirst(a, b, c);
    } else {
      var s := a + [c] + b;
      JoinedHead(a, b, c);
      SplitOnUnfold(s, c);
      AfterFirst(a, b, c);
      SplitOnWithout(a, c);
    }
  }

  /** SplitAppend when a already holds a separator: a's first field leads, and
      the rest follows by SplitAppend on what comes after it. */
  lemma {:induction false} SplitAppendInFirst(a: string, b: string, c: char)
    requires c in a
    ensures SplitOn(a + [c] + b, c) == SplitOn(a, c) + SplitOn(b, c)
    decreases |a|, 0
  {
    var rest := After(a, c).value;
    JoinedHead(a, b, c);
    JoinedAfter(a, b, c);
    SplitOnUnfold(a + [c] + b, c);
    SplitAppend(rest, b, c);
    SplitOnUnfold(a, c);
    SplitConsAssoc(Before(a, c), SplitOn(rest, c), SplitOn(b, c));
  }

  /** a + [c] + b holds c, and its first field is a's. */
  lemma JoinedHead(a: string, b: string, c: char)
    ensures c in a + [c] + b
    ensures Before(a + [c] + b, c) == Before(a, c)
  {
    var s := a + [c] + b;
    assert s[|a|] == c;
    assert s == a + ([c] + b);
    BeforeAppend(a, [c] + b, c);
    if c !in a {
      assert Before([c] + b, c) == [];
    }
  }

  /** What follows the first c of a + [c] + b, when a holds c. */
  lemma JoinedAfter(a: string, b: string, c: char)
    requires c in a
    ensures After(a + [c] + b, c) == Some(After(a, c).value + [c] + b)
  {
    assert a + [c] + b == a + ([c] + b);
    AfterAppend(a, [c] + b, c);
    assert After(a, c).value + ([c] + b) == After(a, c).value + [c] + b;
  }

  /** Regrouping a cons; a lemma of its own so that SplitAppendInFirst does
      not have to find the regrouping among its many sequence terms. */
  lemma SplitConsAssoc(x: string, xs: seq<string>, ys: seq<string>)
    ensures [x] + (xs + ys) == ([x] + xs) + ys
  {
  }

  /** Looking a name up in joined fields: the first list's value wins. */
  lemma {:induction false} FieldValueAppend(xs: seq<string>, ys: seq<string>, name: string)
    ensures FieldValue(xs + ys, name) == if FieldValue(xs, name).Some? then FieldValue(xs, name) else FieldValue(ys, name)
  {
    if xs == [] {
      assert xs + ys == ys;
    } else {
      assert (xs + ys)[0] == xs[0];
      assert (xs + ys)[1..] == xs[1..] + ys;
      FieldValueAppend(xs[1..], ys, name);
    }
  }

  /** The field addKioskParam appends, followed by nothing or by further
      '&'-separated fields, is read as `kiosk` = "1". */
  lemma FlagFieldReads(cb: string)
    requires cb == [] || cb[0] == '&'
    ensures FieldValue(SplitOn("kiosk=1" + cb, '&'), "kiosk") == Some("1")
  {
    FlagFieldFirst(cb);
    FlagFieldParts();
    FirstFieldWins(SplitOn("kiosk=1" + cb, '&'), "kiosk");
  }

  /** "kiosk=1" names `kiosk` and carries "1". */
  lemma FlagFieldParts()
    ensures Before("kiosk=1", '=') == "kiosk" && After("kiosk=1", '=') == Some("1")
  {
    NameAndValue("kiosk", "1");
    assert "kiosk" + ['='] + "1" == "kiosk=1";
  }

  /** "kiosk=1" is the first field of "kiosk=1" + cb. */
  lemma FlagFieldFirst(cb: string)
    requires cb == [] || cb[0] == '&'
    ensures SplitOn("kiosk=1" + cb, '&')[0] == "kiosk=1"
  {
    BeforeAppend("kiosk=1", cb, '&');
    assert Before(cb, '&') == [];
  }

  /** A non-empty first field with the given name decides the lookup. */
  lemma FirstFieldWins(fields: seq<string>, name: string)
    requires |fields| >= 1 && fields[0] != "" && Before(fields[0], '=') == name
    ensures FieldValue(fields, name) == Some(After(fields[0], '=').GetOr(""))
  {
  }

  /** A field "name=value" whose name has no '=' splits into that name and value. */
  lemma NameAndValue(name: string, value: string)
    requires '=' !in name
    ensures Before(name + ['='] + value, '=') == name
    ensures After(name + ['='] + value, '=') == Some(value)
  {
    BeforeAppend(name, ['='] + value, '=');
    assert name + ['='] + value == name + (['='] + value);
    AfterFirst(name, value, '=');
  }

  /** What addKioskParam appends reads back, on the next page, as the query
      value `kiosk=1` that line 4 requires — provided the URL has no fragment.
      A `kiosk` field the URL already has comes first and wins; with any value
      but "1" the next page is then not in kiosk mode. */
  lemma KioskParamActivatesNextPage(url: string, cacheBust: bool, now: int)
    requires '#' !in url
    ensures QueryGet(AddKioskParam(url, cacheBust, now), "kiosk")
            == if QueryGet(url, "kiosk").Some? then QueryGet(url, "kiosk") else Some("1")
  {
    var cb := if cacheBust then "&kiosk_ts=" + IntToString(now) else "";
    var tail := "kiosk=1" + cb;
    assert AddKioskParam(url, cacheBust, now) == url + [if '?' in url then '&' else '?'] + tail;
    StampHasNoHash(now);
    assert '#' !in tail;
    FlagFieldReads(cb);
    if '?' in url {
      ExtendedQueryLookup(url, tail);
    } else {
      StartedQueryLookup(url, tail);
    }
  }

  /** Appending a field after '&' to a URL with a query: a `kiosk` field the
      query already has wins over one in the appended text. */
  lemma ExtendedQueryLookup(url: string, tail: string)
    requires '#' !in url && '#' !in tail && '?' in url
    requires FieldValue(SplitOn(tail, '&'), "kiosk") == Some("1")
    ensures QueryGet(url + ['&'] + tail, "kiosk")
            == if QueryGet(url, "kiosk").Some? then QueryGet(url, "kiosk") else Some("1")
  {
    QueryExtended(url, tail);
    var q := QueryOf(url);
    SplitAppend(q, tail, '&');
    FieldValueAppend(SplitOn(q, '&'), SplitOn(tail, '&'), "kiosk");
  }

  /** Appending a field after '?' to a URL without a query: the appended text
      is the whole query, and the URL had no `kiosk` value. */
  lemma StartedQueryLookup(url: string, tail: string)
    requires '#' !in url && '#' !in tail && '?' !in url
    requires FieldValue(SplitOn(tail, '&'), "kiosk") == Some("1")
    ensures QueryGet(url + ['?'] + tail, "kiosk") == Some("1")
    ensures QueryGet(url, "kiosk").None?
  {
    QueryStarted(url, tail);
    BeforeAppend(url, [], '#');
    assert url + [] == url;
    NoQueryFindsNothing(url, "kiosk");
  }

  /** A URL with no '?' before its fragment has an empty query, in which no
      name has a value. */
  lemma NoQueryFindsNothing(url: string, name: string)
    requires '?' !in Before(url, '#')
    ensures QueryOf(url) == "" && QueryGet(url, name).None?
  {
    assert SplitOn("", '&') == [""];
  }

  lemma StampHasNoHash(now: int)
    ensures '#' !in IntToString(now)
  {
    var s := IntToString(now);
    assert forall k | 0 <= k < |s| :: s[k] != '#';
  }

  /** Appending a field after '&' to a URL with a query and no fragment
      extends its query by that field. */
  lemma QueryExtended(url: string, tail: string)
    requires '#' !in url && '#' !in tail && '?' in url
    ensures QueryOf(url + ['&'] + tail) == QueryOf(url) + ['&'] + tail
  {
    HashFreeJoin(url, tail);
    QueryWithoutFragment(url);
    QueryWithoutFragment(url + ['&'] + tail);
    AfterExtended(url, tail);
  }

  /** Joining two texts without '#' by '&' adds no '#'. */
  lemma HashFreeJoin(url: string, tail: string)
    requires '#' !in url && '#' !in tail
    ensures '#' !in url + ['&'] + tail
  {
  }

  /** Text appended after '&' to a URL holding '?' extends what follows its first '?'. */
  lemma AfterExtended(url: string, tail: string)
    requires '?' in url
    ensures After(url + ['&'] + tail, '?') == Some(After(url, '?').value + ['&'] + tail)
  {
    assert url + ['&'] + tail == url + (['&'] + tail);
    AfterAppend(url, ['&'] + tail, '?');
    assert After(url, '?').value + (['&'] + tail) == After(url, '?').value + ['&'] + tail;
  }

  /** Appending a field after '?' to a URL with no query and no fragment
      makes that field the whole query. */
  lemma QueryStarted(url: string, tail: string)
    requires '#' !in url && '#' !in tail && '?' !in url
    ensures QueryOf(url + ['?'] + tail) == tail
  {
    QueryWithoutFragment(url + ['?'] + tail);
    AfterFirst(url, tail, '?');
  }

  /** The query of a URL without a fragment is everything after its first '?'. */
  lemma QueryWithoutFragment(url: string)
    requires '#' !in url
    ensures QueryOf(url) == After(url, '?').GetOr("")
  {
    BeforeAppend(url, [], '#');
    assert url + [] == url;
  }

  /** A fragment in a playlist entry swallows the flag: everything
      addKioskParam appends lands in the fragment, so the next page reads
      `kiosk` exactly as the entry itself has it; with no '?' before the
      '#' it finds no value at all, so it is not in kiosk mode. */
  lemma KioskParamLostBehindFragment(url: string, cacheBust: bool, now: int)
    requires '#' in url
    ensures QueryGet(AddKioskParam(url, cacheBust, now), "kiosk") == QueryGet(url, "kiosk")
    ensures '?' !in Before(url, '#') ==> QueryGet(AddKioskParam(url, cacheBust, now), "kiosk").None?
  {
    var r := AddKioskParam(url, cacheBust, now);
    var tail := r[|url|..];
    assert r == url + tail;
    BeforeAppend(url, tail, '#');
    assert QueryOf(r) == QueryOf(url);
    if '?' !in Before(url, '#') {
      NoQueryFindsNothing(url, "kiosk");
    }
  }

  /* ---------------- Dwell or scroll ---------------- */

  datatype Plan = Dwell(waitMs: real) | Scroll(maxScroll: real, durationMs: real)

  /** `Math.max(0, scrollHeight - innerHeight)`. */
  function MaxScroll(scrollHeight: real, innerHeight: real): (m: real)
    ensures m >= 0.0 && m >= scrollHeight - innerHeight
    ensures m == 0.0 || m == scrollHeight - innerHeight
  {
    RealMax(0.0, scrollHeight - innerHeight)
  }

  /** Lines 71-81: dwell when the page scrolls less than the minimum, else
      scroll the whole page at `max(10, speed)` pixels per second. */
  function PlanPage(settings: Settings, scrollHeight: real, innerHeight: real): (p: Plan)
    ensures p.Dwell? <==> MaxScroll(scrollHeight, innerHeight) < settings.minScrollPx
    ensures p.Dwell? ==> p.waitMs == settings.dwellMs
    ensures p.Scroll? ==>
              && p.maxScroll == MaxScroll(scrollHeight, innerHeight)
              && p.durationMs >= 0.0
              && p.durationMs * RealMax(10.0, settings.speedPxPerSec) == p.maxScroll * 1000.0
              && p.durationMs <= p.maxScroll * 100.0
  {
    var maxScroll := MaxScroll(scrollHeight, innerHeight);
    if maxScroll < settings.minScrollPx then Dwell(settings.dwellMs)
    else
      var rate := RealMax(10.0, settings.speedPxPerSec);
      ScrollDuration(maxScroll, rate);
      Scroll(maxScroll, maxScroll / rate * 1000.0)
  }

  /** Scrolling a distance at a rate of at least 10 pixels per second takes a
      non-negative time of at most 100 ms per pixel. */
  lemma ScrollDuration(distance: real, rate: real)
    requires distance >= 0.0 && rate >= 10.0
    ensures var d := distance / rate * 1000.0;
            d >= 0.0 && d * rate == distance * 1000.0 && d <= distance * 100.0
  {
    var q := distance / rate;
    assert q * rate == distance;
    DivideByPositive(distance, rate);
    assert q * (rate - 10.0) >= 0.0;
    assert q * (rate - 10.0) == q * rate - q * 10.0;
    assert (q * 1000.0) * rate == (q * rate) * 1000.0;
  }

  /** The comparison is strict: a page that scrolls exactly the minimum scrolls. */
  lemma ThresholdScrolls(settings: Settings, scrollHeight: real, innerHeight: real)
    requires MaxScroll(scrollHeight, innerHeight) == settings.minScrollPx
    ensures PlanPage(settings, scrollHeight, innerHeight).Scroll?
  {
  }

  /** The configuration of the two-page scenario below. */
  function ScenarioConfig(): JsValue {
    Obj(map["speed" := JsValue.Num(Finite(100.0)), "dwell" := JsValue.Num(Finite(5000.0)),
            "toppause" := JsValue.Num(Finite(0.0)), "bottompause" := JsValue.Num(Finite(0.0)),
            "minscroll" := JsValue.Num(Finite(80.0))])
  }

  lemma ScenarioSettings(strToNum: string -> JsNumber)
    ensures ResolveSettings(ScenarioConfig(), strToNum) == Some(Settings(100.0, 5000.0, 0.0, 0.0, 80.0, true))
  {
    var m := ScenarioConfig().props;
    assert m["speed"] == JsValue.Num(Finite(100.0)) && m["dwell"] == JsValue.Num(Finite(5000.0));
    assert m["toppause"] == JsValue.Num(Finite(0.0)) && m["bottompause"] == JsValue.Num(Finite(0.0));
    assert m["minscroll"] == JsValue.Num(Finite(80.0)) && "cachebust" !in m;
  }

  lemma ScenarioPath()
    ensures NormalisePath("/a.html") == "a.html"
  {
  }

  lemma ScenarioStorage(playlistText: string, configText: string, parseJson: string -> Option<JsValue>)
    requires playlistText != "" && configText != ""
    requires parseJson(playlistText) == Some(Arr([Str("a.html"), Str("b.html")]))
    requires parseJson(configText) == Some(ScenarioConfig())
    ensures var storage := map[PlaylistKey := playlistText, ConfigKey := configText];
            && SavedIndex(storage) == Some(0)
            && ReadJson(storage, PlaylistKey, parseJson, Arr([])) == Arr([Str("a.html"), Str("b.html")])
            && ReadJson(storage, ConfigKey, parseJson, Obj(map[])) == ScenarioConfig()
  {
  }

  lemma ScenarioUrl(now: int)
    ensures AddKioskParam("b.html", true, now) == "b.html?kiosk=1&kiosk_ts=" + IntToString(now)
  {
    assert '?' !in "b.html";
  }

  /** A whole load with speed 100, dwell 5000, no top or bottom pause and
      threshold 80, a playlist of "a.html" and "b.html", on "/a.html" with
      500 pixels to scroll: index 0, a 5000 ms scroll, then index 1 stored
      and "b.html" opened with the kiosk flag and the cache-bust stamp. */
  lemma TwoPageScenario(playlistText: string, configText: string, parseJson: string -> Option<JsValue>,
                        strToNum: string -> JsNumber, now: int)
    requires playlistText != "" && configText != ""
    requires parseJson(playlistText) == Some(Arr([Str("a.html"), Str("b.html")]))
    requires parseJson(configText) == Some(ScenarioConfig())
    ensures var storage := map[PlaylistKey := playlistText, ConfigKey := configText];
            var b := StartSession(Some("1"), storage, "/a.html", parseJson, strToNum);
            && b == Active([Str("a.html"), Str("b.html")], Settings(100.0, 5000.0, 0.0, 0.0, 80.0, true), 0)
            && PlanPage(b.settings, 1268.0, 768.0) == Scroll(500.0, 5000.0)
            && NextIndex(b.idx, |b.playlist|) == 1
            && NextUrl(b.playlist, b.idx, b.settings, now) == Some("b.html?kiosk=1&kiosk_ts=" + IntToString(now))
  {
    var storage := map[PlaylistKey := playlistText, ConfigKey := configText];
    var playlist := [Str("a.html"), Str("b.html")];
    ScenarioPath();
    ScenarioStorage(playlistText, configText, parseJson);
    ScenarioSettings(strToNum);
    assert Reconcile(playlist, "a.html", Some(0)) == 0;
    ScenarioUrl(now);
  }

  /* ---------------- Animation frames ---------------- */

  /** `animateScroll(from, to, durationMs)` started at `t0`. */
  datatype Animation = Animation(from: real, to: real, durationMs: real, t0: real)

  /** `Math.min(1, (now - t0) / Math.max(1, durationMs))` (line 108). */
  function Fraction(a: Animation, now: real): (t: real)
    ensures t <= 1.0
    ensures now >= a.t0 ==> 0.0 <= t
    ensures t == 1.0 <==> now - a.t0 >= RealMax(1.0, a.durationMs)
    ensures now - a.t0 <= RealMax(1.0, a.durationMs) ==> t == (now - a.t0) / RealMax(1.0, a.durationMs)
  {
    var d := RealMax(1.0, a.durationMs);
    var raw := (now - a.t0) / d;
    DivideByPositive(now - a.t0, d);
    RealMin(1.0, raw)
  }

  /** The fraction never goes back as the clock advances. */
  lemma FractionMonotone(a: Animation, now1: real, now2: real)
    requires now1 <= now2
    ensures Fraction(a, now1) <= Fraction(a, now2)
  {
    var d := RealMax(1.0, a.durationMs);
    DivideByPositive(now2 - now1, d);
    DivideSum(now1 - a.t0, now2 - now1, d);
    assert (now1 - a.t0) + (now2 - now1) == now2 - a.t0;
  }

  /** Division by a positive number distributes over a sum. */
  lemma DivideSum(x: real, y: real, d: real)
    requires d > 0.0
    ensures (x + y) / d == x / d + y / d
  {
    var p, q := x / d, y / d;
    assert p * d == x && q * d == y;
    assert (p + q) * d == x + y;
  }

  /** Line 78's promise: until the deadline the page moves at constant speed,
      covering (to - from) / max(1, durationMs) pixels per millisecond. */
  lemma ConstantSpeed(a: Animation, now1: real, now2: real)
    requires a.t0 <= now1 <= now2 && now2 - a.t0 <= RealMax(1.0, a.durationMs)
    ensures Position(a, Fraction(a, now2)) - Position(a, Fraction(a, now1))
            == (a.to - a.from) * ((now2 - now1) / RealMax(1.0, a.durationMs))
  {
    var d := RealMax(1.0, a.durationMs);
    DivideSum(now1 - a.t0, now2 - now1, d);
    assert (now1 - a.t0) + (now2 - now1) == now2 - a.t0;
    var t1, t2 := Fraction(a, now1), Fraction(a, now2);
    assert t2 == t1 + (now2 - now1) / d;
    assert (a.to - a.from) * t2 - (a.to - a.from) * t1 == (a.to - a.from) * (t2 - t1);
  }

  /** `from + (to - from) * t` (line 109). */
  function Position(a: Animation, t: real): (y: real)
    ensures 0.0 <= t <= 1.0 ==> RealMin(a.from, a.to) <= y <= RealMax(a.from, a.to)
    ensures t == 0.0 ==> y == a.from
    ensures t == 1.0 ==> y == a.to
  {
    InterpolationBounds(a.from, a.to, t);
    a.from + (a.to - a.from) * t
  }

  lemma DivideByPositive(x: real, d: real)
    requires d > 0.0
    ensures x / d >= 1.0 <==> x >= d
    ensures x >= 0.0 ==> x / d >= 0.0
  {
    var q := x / d;
    assert x == q * d;
    if q >= 1.0 {
      assert (q - 1.0) * d >= 0.0;
    } else {
      assert (1.0 - q) * d > 0.0;
    }
  }

  /** A product of non-negative reals is non-negative. Stated alone, this
      nonlinear fact is proved at once; inside a larger proof it is not found. */
  lemma MulNonNegative(x: real, y: real)
    requires x >= 0.0 && y >= 0.0
    ensures x * y >= 0.0
  {
  }

  lemma InterpolationBounds(from: real, to: real, t: real)
    ensures 0.0 <= t <= 1.0 ==> RealMin(from, to) <= from + (to - from) * t <= RealMax(from, to)
  {
    if 0.0 <= t <= 1.0 {
      var k := if from <= to then to - from else from - to;
      MulNonNegative(k, t);
      MulNonNegative(k, 1.0 - t);
      assert k * (1.0 - t) == k - k * t;
    }
  }

  /** Line 112: the animation resolves when the fraction reaches 1 or the page
      is within 2 pixels of the target. */
  predicate Resolves(a: Animation, now: real, scrollY: real) {
    Fraction(a, now) >= 1.0 || Abs(scrollY - a.to) < 2.0
  }

  /** An unpaused frame resolves once `max(1, durationMs)` has passed since t0,
      and earlier only when the page position is within 2 pixels of the target. */
  lemma ResolvesByDeadline(a: Animation, now: real)
    ensures now - a.t0 >= RealMax(1.0, a.durationMs) ==> Resolves(a, now, Position(a, Fraction(a, now)))
    ensures Resolves(a, now, Position(a, Fraction(a, now))) && now - a.t0 < RealMax(1.0, a.durationMs)
            ==> Abs(Position(a, Fraction(a, now)) - a.to) < 2.0
  {
  }

  /** `animateScroll(0, 1000, 2000)`: the 2-pixel tolerance ends it once more
      than 1996 ms have passed, 4 ms before the nominal 2000. */
  lemma ToleranceEndsEarly(t0: real, now: real)
    requires now >= t0
    ensures var a := Animation(0.0, 1000.0, 2000.0, t0);
            Resolves(a, now, Position(a, Fraction(a, now))) <==> now - t0 > 1996.0
  {
    var a := Animation(0.0, 1000.0, 2000.0, t0);
    var t := Fraction(a, now);
    if now - t0 < 2000.0 {
      assert t == (now - t0) / 2000.0;
      assert Position(a, t) == 1000.0 * t;
    }
  }
}
