/** The settings popup of `src/popup/pages/Index.tsx`: five settings with
    defaults, hydrated from storage on mount (each stored value is adopted only
    when its type fits), setters that persist what they set, the auth handler,
    and the `formatDelay` label. */
module Popup {
  import opened Wrappers
  import opened Text
  import opened Storage

  // ---------------------------------------------------------------- formatDelay

  /** `formatDelay`: `<s>s` under a minute, otherwise `<m>m <s>s` with a
      trailing ` 0s` removed by `replace`. */
  function FormatDelay(seconds: nat): string {
    if seconds < 60 then NatToString(seconds) + "s"
    else ReplaceFirst(NatToString(seconds / 60) + "m " + NatToString(seconds % 60) + "s", " 0s", "")
  }

  /** The `replace(' 0s', '')` on a minutes label: the only space sits after the
      `m`, so only a zero seconds count is removed. */
  lemma ReplaceZeroSeconds(dm: string, ds: string)
    requires AllDigits(dm) && AllDigits(ds) && |ds| >= 1
    requires ds[0] == '0' ==> ds == "0"
    ensures ReplaceFirst(dm + "m " + ds + "s", " 0s", "") ==
      if ds == "0" then dm + "m" else dm + "m " + ds + "s"
  {
    var t := dm + "m " + ds + "s";
    var p := |dm| + 1;
    MinutesLabelSpace(dm, ds);
    OnlyOneSpace(t, p);
    if ds == "0" {
      assert OccursAt(t, " 0s", p);
      assert IndexOf(t, " 0s") == p;
      assert t[..p] == dm + "m";
      assert t[p + 3..] == [];
    } else {
      assert !OccursAt(t, " 0s", p) by {
        assert t[p..p + 3][1] == t[p + 1] == ds[0];
      }
      assert IndexOf(t, " 0s") == -1;
    }
  }

  /** A minutes label has one space, right after the `m`. */
  lemma MinutesLabelSpace(dm: string, ds: string)
    requires AllDigits(dm) && AllDigits(ds) && |ds| >= 1
    ensures var t := dm + "m " + ds + "s";
      && |t| == |dm| + |ds| + 3 && t[|dm| + 1] == ' ' && t[|dm| + 2] == ds[0]
      && forall i :: 0 <= i < |t| && i != |dm| + 1 ==> t[i] != ' '
  {
    var t := dm + "m " + ds + "s";
    var p := |dm| + 1;
    forall i | 0 <= i < |t| && i != p ensures t[i] != ' ' {
      if i < |dm| { assert t[i] == dm[i]; }
      else if i == |dm| { assert t[i] == 'm'; }
      else if i < |t| - 1 { assert t[i] == ds[i - p - 1]; }
    }
  }

  /** In a string with a single space, `' 0s'` can only start at that space. */
  lemma OnlyOneSpace(t: string, p: int)
    requires 0 <= p < |t| && forall i :: 0 <= i < |t| && i != p ==> t[i] != ' '
    ensures forall i :: OccursAt(t, " 0s", i) ==> i == p
  {
    forall i | OccursAt(t, " 0s", i) ensures i == p {
      assert t[i..i + 3][0] == t[i];
    }
  }

  /** `formatDelay` case by case: seconds only, whole minutes, or minutes and
      seconds. */
  lemma FormatDelayCases(seconds: nat)
    ensures seconds < 60 ==> FormatDelay(seconds) == NatToString(seconds) + "s"
    ensures seconds >= 60 && seconds % 60 == 0 ==>
      FormatDelay(seconds) == NatToString(seconds / 60) + "m"
    ensures seconds >= 60 && seconds % 60 != 0 ==>
      FormatDelay(seconds) == NatToString(seconds / 60) + "m " + NatToString(seconds % 60) + "s"
  {
    if seconds >= 60 {
      var ds := NatToString(seconds % 60);
      ReplaceZeroSeconds(NatToString(seconds / 60), ds);
      if ds == "0" {
        NatToStringInjective(seconds % 60, 0);
      }
    }
  }

  /** Reading a delay label back: the leading digits are minutes when an `m`
      follows them (plus the seconds between `m ` and the final `s`, if any),
      and seconds otherwise. */
  function ReadDelay(l: string): nat {
    var k := DigitRun(l);
    var lead := if AllDigits(l[..k]) then DigitsValue(l[..k]) else 0;
    if k < |l| && l[k] == 'm' then
      var rest := if |l| >= k + 4 && AllDigits(l[k + 2..|l| - 1]) then DigitsValue(l[k + 2..|l| - 1]) else 0;
      60 * lead + rest
    else lead
  }

  lemma ReadSecondsForm(d: string)
    requires AllDigits(d)
    ensures ReadDelay(d + "s") == DigitsValue(d)
  {
    var l := d + "s";
    DigitRunConcat(d, "s");
    assert l[..|d|] == d;
    assert l[|d|] == 's';
  }

  lemma ReadMinutesForm(d: string)
    requires AllDigits(d)
    ensures ReadDelay(d + "m") == 60 * DigitsValue(d)
  {
    var l := d + "m";
    DigitRunConcat(d, "m");
    assert l[..|d|] == d;
    assert l[|d|] == 'm';
  }

  lemma ReadMixedForm(d: string, e: string)
    requires AllDigits(d) && AllDigits(e) && |e| >= 1
    ensures ReadDelay(d + "m " + e + "s") == 60 * DigitsValue(d) + DigitsValue(e)
  {
    var tail := "m " + e + "s";
    var l := d + tail;
    assert d + "m " + e + "s" == l;
    DigitRunConcat(d, tail);
    assert l[..|d|] == d;
    assert l[|d|] == 'm';
    assert l[|d| + 2..|l| - 1] == e;
  }

  /** Every delay label reads back as its delay. */
  lemma ReadDelayInverts(seconds: nat)
    ensures ReadDelay(FormatDelay(seconds)) == seconds
  {
    FormatDelayCases(seconds);
    var m, s := seconds / 60, seconds % 60;
    if seconds < 60 {
      NatToStringRoundTrip(seconds);
      ReadSecondsForm(NatToString(seconds));
    } else if s == 0 {
      NatToStringRoundTrip(m);
      ReadMinutesForm(NatToString(m));
    } else {
      NatToStringRoundTrip(m);
      NatToStringRoundTrip(s);
      ReadMixedForm(NatToString(m), NatToString(s));
    }
  }

  /** Distinct delays get distinct labels. */
  lemma FormatDelayInjective(s1: nat, s2: nat)
    requires FormatDelay(s1) == FormatDelay(s2)
    ensures s1 == s2
  {
    ReadDelayInverts(s1);
    ReadDelayInverts(s2);
  }

  // ---------------------------------------------------------------- settings

  /** The five pieces of popup state. `delayEnabled` holds whatever defined value
      storage gave, not necessarily a boolean. */
  datatype Settings = Settings(
    delay: int, authenticated: bool, dark: bool, delayEnabled: Value, tab: string)

  const Defaults: Settings := Settings(60, true, true, Bool(true), "settings")

  /** The popup: its settings, whether the document root carries the `dark`
      class, and the storage area. */
  datatype PopupState = PopupState(settings: Settings, darkClass: bool, storage: Store)

  /** The mount effect: read the five keys, then adopt each one whose type fits;
      an absent or falsy theme means dark and writes `'dark'` back. */
  function Hydrate(p: PopupState): PopupState {
    var st, s := p.storage, p.settings;
    var theme := Get(st, "theme");
    var dark := theme == Some(Str("dark")) || !IsTruthy(theme);
    var settings := Settings(
      delay := if "delayDuration" in st && st["delayDuration"].Num? then st["delayDuration"].n else s.delay,
      authenticated := if "qAuthToken" in st && st["qAuthToken"].Bool? then st["qAuthToken"].b else s.authenticated,
      dark := dark,
      delayEnabled := if "delayEnabled" in st then st["delayEnabled"] else s.delayEnabled,
      tab := if "activeTab" in st && st["activeTab"].Str? then st["activeTab"].s else s.tab);
    PopupState(settings, dark, if IsTruthy(theme) then st else st["theme" := Str("dark")])
  }

  /** Opening the popup afresh on a given storage area. */
  function Reopen(store: Store): PopupState {
    Hydrate(PopupState(Defaults, false, store))
  }

  /** `toggleTheme`: flip dark mode, the root class and the stored theme. */
  function ToggleTheme(p: PopupState): (q: PopupState) {
    var dark := !p.settings.dark;
    PopupState(p.settings.(dark := dark), dark, p.storage["theme" := Str(if dark then "dark" else "light")])
  }

  function SetDelayEnabled(p: PopupState, enabled: bool): PopupState {
    PopupState(p.settings.(delayEnabled := Bool(enabled)), p.darkClass, p.storage["delayEnabled" := Bool(enabled)])
  }

  function SetDelay(p: PopupState, delay: int): PopupState {
    PopupState(p.settings.(delay := delay), p.darkClass, p.storage["delayDuration" := Num(delay)])
  }

  function SetTab(p: PopupState, tab: string): PopupState {
    PopupState(p.settings.(tab := tab), p.darkClass, p.storage["activeTab" := Str(tab)])
  }

  /** The reply to the `Q_AUTH_TOKEN` message; `None` when no reply arrived. */
  datatype AuthResponse = AuthResponse(success: bool, qAuthToken: Value, error: Option<string>)

  /** The alert shown when the reply is missing or unsuccessful: the reply's
      error, or `Unknown error` when it has none. */
  function AlertText(response: Option<AuthResponse>): string {
    "Failed to import draft: " +
    if response.Some? && response.value.error.Some? && response.value.error.value != "" then response.value.error.value
    else "Unknown error"
  }

  /** `handleAuthChange`: on success mark the popup authenticated and store the
      token; otherwise the state is untouched and an alert text is produced. */
  function AuthChange(p: PopupState, response: Option<AuthResponse>): (r: (PopupState, Option<string>))
    ensures r.1.None? <==> response.Some? && response.value.success
    ensures r.1.None? ==> r.0.settings.authenticated && r.0.storage == p.storage["qAuthToken" := response.value.qAuthToken]
    ensures r.1.Some? ==> r.0 == p
    ensures r.1.Some? ==> r.1.value == AlertText(response)
  {
    match response
    case Some(resp) =>
      if resp.success then
        (PopupState(p.settings.(authenticated := true), p.darkClass, p.storage["qAuthToken" := resp.qAuthToken]), None)
      else
        (p, Some(AlertText(response)))
    case None => (p, Some(AlertText(response)))
  }

  // ---------------------------------------------------------------- properties

  /** The mount rules: the theme is dark when stored as `'dark'` or falsy, a
      falsy theme writes `'dark'`, and each other key is adopted only when its
      value has the expected type (`delayEnabled`: any value at all). */
  lemma HydrateRules(p: PopupState)
    ensures var q, st := Hydrate(p), p.storage;
      && (q.settings.dark <==> Get(st, "theme") == Some(Str("dark")) || !IsTruthy(Get(st, "theme")))
      && q.darkClass == q.settings.dark
      && q.storage == (if IsTruthy(Get(st, "theme")) then st else st["theme" := Str("dark")])
      && (q.settings.delay != p.settings.delay ==> "delayDuration" in st && st["delayDuration"] == Num(q.settings.delay))
      && (q.settings.delayEnabled != p.settings.delayEnabled ==> "delayEnabled" in st && st["delayEnabled"] == q.settings.delayEnabled)
      && (q.settings.tab != p.settings.tab ==> "activeTab" in st && st["activeTab"] == Str(q.settings.tab))
      && (q.settings.authenticated != p.settings.authenticated ==> "qAuthToken" in st && st["qAuthToken"] == Bool(q.settings.authenticated))
      && ("delayDuration" in st && st["delayDuration"].Num? ==> q.settings.delay == st["delayDuration"].n)
      && ("delayEnabled" in st ==> q.settings.delayEnabled == st["delayEnabled"])
      && ("activeTab" in st && st["activeTab"].Str? ==> q.settings.tab == st["activeTab"].s)
      && ("qAuthToken" in st && st["qAuthToken"].Bool? ==> q.settings.authenticated == st["qAuthToken"].b)
  {
  }

  /** On an empty storage area every setting keeps its default and the dark
      theme is written. */
  lemma HydrateEmptyStore(darkClass: bool)
    ensures Hydrate(PopupState(Defaults, darkClass, map[])) == PopupState(Defaults, true, map["theme" := Str("dark")])
  {
  }

  /** Hydrating twice is hydrating once: the theme written back is read as dark. */
  lemma HydrateIdempotent(p: PopupState)
    ensures Hydrate(Hydrate(p)) == Hydrate(p)
  {
    var q := Hydrate(p);
    assert Get(q.storage, "theme") == Some(Str("dark")) || IsTruthy(Get(p.storage, "theme"));
  }

  /** A toggled theme survives closing and reopening the popup. */
  lemma ToggleThemePersists(p: PopupState)
    ensures Reopen(ToggleTheme(p).storage).settings.dark == ToggleTheme(p).settings.dark == !p.settings.dark
    ensures Reopen(ToggleTheme(p).storage).settings == Reopen(p.storage).settings.(dark := !p.settings.dark)
  {
  }

  /** The delay toggle is read back on the next mount, and only that setting
      changes. */
  lemma DelayEnabledPersists(p: PopupState, enabled: bool)
    ensures Reopen(SetDelayEnabled(p, enabled).storage).settings ==
      Reopen(p.storage).settings.(delayEnabled := Bool(enabled))
  {
  }

  /** The chosen delay is read back on the next mount, and only that setting
      changes. */
  lemma DelayPersists(p: PopupState, delay: int)
    ensures Reopen(SetDelay(p, delay).storage).settings == Reopen(p.storage).settings.(delay := delay)
  {
  }

  /** The chosen tab is read back on the next mount, and only that setting
      changes. */
  lemma TabPersists(p: PopupState, tab: string)
    ensures Reopen(SetTab(p, tab).storage).settings == Reopen(p.storage).settings.(tab := tab)
  {
  }

  /** After a successful auth reply the popup shows authenticated, but the next
      mount adopts the stored token only if it is a boolean. */
  lemma AuthPersists(p: PopupState, resp: AuthResponse)
    requires resp.success
    ensures AuthChange(p, Some(resp)).0.settings.authenticated
    ensures Reopen(AuthChange(p, Some(resp)).0.storage).settings.authenticated ==
      if resp.qAuthToken.Bool? then resp.qAuthToken.b else true
  {
  }

  // ---------------------------------------------------------------- the component

  /** The popup component with its React state, the root element's class and the
      storage area as fields. */
  class PopupPage {
    var settings: Settings
    var darkClass: bool
    var storage: Store

    function State(): PopupState
      reads this
    {
      PopupState(settings, darkClass, storage)
    }

    constructor(darkClass: bool, storage: Store)
      ensures State() == PopupState(Defaults, darkClass, storage)
    {
      this.settings := Defaults;
      this.darkClass := darkClass;
      this.storage := storage;
    }

    /** The mount effect, as sequential setter calls and one storage write;
        `result` is what the storage read returned. */
    method Mount()
      modifies this
      ensures State() == Hydrate(old(State()))
    {
      var result := storage;
      LoadTheme(result);
      LoadDelayEnabled(result);
      LoadDelayDuration(result);
      LoadActiveTab(result);
      LoadAuth(result);
    }

    /** The theme block: dark when stored as `'dark'` or falsy, and a falsy
        theme writes `'dark'`. */
    method LoadTheme(result: Store)
      modifies this
      ensures var theme := Get(result, "theme");
        var isDark := theme == Some(Str("dark")) || !IsTruthy(theme);
        && settings == old(settings).(dark := isDark) && darkClass == isDark
        && storage == if IsTruthy(theme) then old(storage) else old(storage)["theme" := Str("dark")]
    {
      var theme := Get(result, "theme");
      var isDark := theme == Some(Str("dark")) || !IsTruthy(theme);
      settings := settings.(dark := isDark);
      darkClass := isDark;
      if !IsTruthy(theme) {
        storage := storage["theme" := Str("dark")];
      }
    }

    /** Any defined `delayEnabled` is adopted. */
    method LoadDelayEnabled(result: Store)
      modifies this
      ensures settings == old(settings).(delayEnabled := if "delayEnabled" in result then result["delayEnabled"] else old(settings).delayEnabled)
      ensures darkClass == old(darkClass) && storage == old(storage)
    {
      var enabled := Get(result, "delayEnabled");
      if enabled.Some? {
        settings := settings.(delayEnabled := enabled.value);
      }
    }

    /** A numeric `delayDuration` is adopted. */
    method LoadDelayDuration(result: Store)
      modifies this
      ensures settings == old(settings).(delay := if "delayDuration" in result && result["delayDuration"].Num? then result["delayDuration"].n else old(settings).delay)
      ensures darkClass == old(darkClass) && storage == old(storage)
    {
      var duration := Get(result, "delayDuration");
      if duration.Some? && duration.value.Num? {
        settings := settings.(delay := duration.value.n);
      }
    }

    /** A string `activeTab` is adopted. */
    method LoadActiveTab(result: Store)
      modifies this
      ensures settings == old(settings).(tab := if "activeTab" in result && result["activeTab"].Str? then result["activeTab"].s else old(settings).tab)
      ensures darkClass == old(darkClass) && storage == old(storage)
    {
      var tab := Get(result, "activeTab");
      if tab.Some? && tab.value.Str? {
        settings := settings.(tab := tab.value.s);
      }
    }

    /** A boolean `qAuthToken` is adopted. */
    method LoadAuth(result: Store)
      modifies this
      ensures settings == old(settings).(authenticated := if "qAuthToken" in result && result["qAuthToken"].Bool? then result["qAuthToken"].b else old(settings).authenticated)
      ensures darkClass == old(darkClass) && storage == old(storage)
    {
      var auth := Get(result, "qAuthToken");
      if auth.Some? && auth.value.Bool? {
        settings := settings.(authenticated := auth.value.b);
      }
    }

    method ToggleThemeClicked()
      modifies this
      ensures State() == ToggleTheme(old(State()))
    {
      var newTheme := !settings.dark;
      settings := settings.(dark := newTheme);
      darkClass := newTheme;
      storage := storage["theme" := Str(if newTheme then "dark" else "light")];
    }

    method HandleDelayEnabledChange(enabled: bool)
      modifies this
      ensures State() == SetDelayEnabled(old(State()), enabled)
    {
      settings := settings.(delayEnabled := Bool(enabled));
      storage := storage["delayEnabled" := Bool(enabled)];
    }

    method HandleDelayChange(delay: int)
      modifies this
      ensures State() == SetDelay(old(State()), delay)
    {
      settings := settings.(delay := delay);
      storage := storage["delayDuration" := Num(delay)];
    }

    method HandleTabChange(value: string)
      modifies this
      ensures State() == SetTab(old(State()), value)
    {
      settings := settings.(tab := value);
      storage := storage["activeTab" := Str(value)];
    }

    /** `handleAuthChange`; the reply of the background worker is a parameter and
        the alert is returned instead of shown. */
    method HandleAuthChange(response: Option<AuthResponse>) returns (alert: Option<string>)
      modifies this
      ensures (State(), alert) == AuthChange(old(State()), response)
    {
      if response.Some? && response.value.success {
        settings := settings.(authenticated := true);
        storage := storage["qAuthToken" := response.value.qAuthToken];
        alert := None;
      } else {
        var err := if response.Some? && response.value.error.Some? && response.value.error.value != ""
                   then response.value.error.value else "Unknown error";
        alert := Some("Failed to import draft: " + err);
      }
    }
  }
}
