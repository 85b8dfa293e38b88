/** The theme manager: a `light` class on the root element, persisted under
    the storage key "theme" as "light" or "dark", flipped by a click on a
    toggle button or by the key `t`. */
module Theme {
  import opened Wrappers
  import JsStrings

  const LightClass := "light"
  const Light := "light"
  const Dark := "dark"

  /** The root element's classes and the stored value under "theme"
      (`None` when nothing is stored). */
  datatype ThemeState = ThemeState(rootClasses: set<string>, saved: Option<string>)

  predicate IsLight(s: ThemeState) {
    LightClass in s.rootClasses
  }

  /** Storage and root agree: the stored value is "light" exactly when the
      root carries `light` (nothing stored reads as the dark default). */
  predicate Consistent(s: ThemeState) {
    s.saved == Some(Light) <==> IsLight(s)
  }

  /** Start-up: the saved value "light", and only that, adds the class; the
      storage is read but not written. */
  function Init(s: ThemeState): (r: ThemeState)
    ensures r.saved == s.saved
    ensures IsLight(r) <==> IsLight(s) || s.saved == Some(Light)
    ensures r.rootClasses - {LightClass} == s.rootClasses - {LightClass}
    ensures !IsLight(s) ==> Consistent(r)
  {
    if s.saved == Some(Light) then s.(rootClasses := s.rootClasses + {LightClass}) else s
  }

  /** Start-up is idempotent: running it again changes nothing. */
  lemma InitTwice(s: ThemeState)
    ensures Init(Init(s)) == Init(s)
  {
  }

  /** `toggleTheme`: flip the class, then store the resulting theme. */
  function Toggle(s: ThemeState): (r: ThemeState)
    ensures IsLight(r) <==> !IsLight(s)
    ensures r.rootClasses - {LightClass} == s.rootClasses - {LightClass}
    ensures r.saved == Some(Light) || r.saved == Some(Dark)
    ensures Consistent(r)
  {
    var classes :=
      if LightClass in s.rootClasses then s.rootClasses - {LightClass}
      else s.rootClasses + {LightClass};
    ThemeState(classes, Some(if LightClass in classes then Light else Dark))
  }

  /** Two toggles restore the root's classes, but the storage then holds an
      explicit value even if it held nothing (or something else) before. */
  lemma ToggleTwice(s: ThemeState)
    ensures Toggle(Toggle(s)).rootClasses == s.rootClasses
    ensures Toggle(Toggle(s)).saved == Some(if IsLight(s) then Light else Dark)
    ensures Consistent(s) && (s.saved == Some(Light) || s.saved == Some(Dark)) ==> Toggle(Toggle(s)) == s
  {
  }

  /** With nothing stored, two toggles leave "dark" stored. */
  lemma ToggleTwiceStoresDark()
    ensures var s := ThemeState({}, None); Toggle(Toggle(s)).saved == Some(Dark) != s.saved
  {
  }

  /** The hotkey test `e.key.toLowerCase() === "t"`. */
  predicate IsToggleKey(key: string) {
    JsStrings.ToLower(key) == "t"
  }

  /** Exactly the keys "t" and "T" toggle. */
  lemma ToggleKeys(key: string)
    ensures IsToggleKey(key) <==> key == "t" || key == "T"
  {
    if IsToggleKey(key) {
      assert |key| == 1;
      assert JsStrings.ToLower(key)[0] == JsStrings.LowerChar(key[0]) == 't';
      assert key == [key[0]];
    } else {
      assert JsStrings.ToLower("t") == "t";
      assert JsStrings.ToLower("T") == "t";
    }
  }

  /** What reaches the theme manager: a click on a `[data-theme-toggle]`
      element, or a key press anywhere. */
  datatype Event = ToggleClick | KeyDown(key: string)

  predicate Toggles(e: Event) {
    e.ToggleClick? || IsToggleKey(e.key)
  }

  /** One event: a toggling event flips the theme, touches no other class
      and stores the new theme by name; any other key press does nothing. */
  function Handle(s: ThemeState, e: Event): (r: ThemeState)
    ensures Toggles(e) ==>
      && (IsLight(r) <==> !IsLight(s))
      && r.rootClasses - {LightClass} == s.rootClasses - {LightClass}
      && r.saved == Some(if IsLight(r) then Light else Dark)
    ensures !Toggles(e) ==> r == s
  {
    match e
    case ToggleClick => Toggle(s)
    case KeyDown(key) => if IsToggleKey(key) then Toggle(s) else s
  }

  /** The state after the events, in order. */
  function Run(s: ThemeState, events: seq<Event>): ThemeState
    decreases |events|
  {
    if events == [] then s else Run(Handle(s, events[0]), events[1..])
  }

  function CountToggles(events: seq<Event>): nat {
    if events == [] then 0
    else (if Toggles(events[0]) then 1 else 0) + CountToggles(events[1..])
  }

  /** The theme after a run is the start theme flipped once per toggling
      event. */
  lemma {:induction false} RunParity(s: ThemeState, events: seq<Event>)
    ensures IsLight(Run(s, events)) <==> (IsLight(s) <==> CountToggles(events) % 2 == 0)
    decreases |events|
  {
    if events != [] {
      RunParity(Handle(s, events[0]), events[1..]);
    }
  }

  /** Every event keeps storage and root consistent. */
  lemma {:induction false} RunConsistent(s: ThemeState, events: seq<Event>)
    requires Consistent(s)
    ensures Consistent(Run(s, events))
    decreases |events|
  {
    if events != [] {
      RunConsistent(Handle(s, events[0]), events[1..]);
    }
  }
}
