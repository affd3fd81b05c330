/** The day/night theme of the room (`DarkModeManager`).

    One flag, `isDarkMode`, is the source of truth. It is mirrored into the
    `uNightMix` uniform of the baked material (0 is night, 1 is day), into the
    class list of the page body (class "dark") and into the `aria-pressed`
    attribute of the theme button. The debug panel's "Night Mix" slider writes
    the uniform directly and derives the flag back from it, so the uniform may
    be parked strictly between 0 and 1. */
module DarkMode {
  import opened Wrappers

  /** The body class present exactly in night mode. */
  const DarkClass: string := "dark"

  /** Everything the manager owns or writes. */
  datatype Theme = Theme(
    isDarkMode: bool,
    nightMix: real,
    bodyClasses: set<string>,
    ariaPressed: string)

  /** The four things that change the theme once the manager exists. */
  datatype Event =
    | Click                        // the theme button was clicked
    | Set(isDark: bool)            // `setDarkMode` was called
    | SystemPreference(matches: bool)  // prefers-color-scheme changed
    | Slider(value: real)          // the "Night Mix" slider moved

  /** The uniform value the manager writes for a given flag. */
  function MixFor(isDark: bool): real {
    if isDark then 0.0 else 1.0
  }

  /** The `aria-pressed` value the manager writes for a given flag. */
  function AriaFor(isDark: bool): string {
    if isDark then "true" else "false"
  }

  /** The page shows the flag. */
  ghost predicate DomMirrors(t: Theme) {
    && (DarkClass in t.bodyClasses <==> t.isDarkMode)
    && t.ariaPressed == AriaFor(t.isDarkMode)
  }

  /** The page and the uniform both show the flag. */
  ghost predicate Synced(t: Theme) {
    DomMirrors(t) && t.nightMix == MixFor(t.isDarkMode)
  }

  /** What holds of every theme the manager can reach: the page shows the
      flag, the uniform is within the slider's range, and the flag is set
      exactly when the uniform is 0. */
  ghost predicate Coherent(t: Theme) {
    && DomMirrors(t)
    && 0.0 <= t.nightMix <= 1.0
    && (t.isDarkMode <==> t.nightMix == 0.0)
  }

  /** Only a slider value within its range can be delivered. */
  predicate ValidEvent(e: Event) {
    e.Slider? ==> 0.0 <= e.value <= 1.0
  }

  /** `updateDOM`: the body class and the button attribute follow the flag;
      no other body class is touched. */
  function UpdateDom(t: Theme): (r: Theme)
    ensures DomMirrors(r)
    ensures r.isDarkMode == t.isDarkMode && r.nightMix == t.nightMix
    ensures r.bodyClasses - {DarkClass} == t.bodyClasses - {DarkClass}
  {
    if t.isDarkMode then
      t.(bodyClasses := t.bodyClasses + {DarkClass}, ariaPressed := "true")
    else
      t.(bodyClasses := t.bodyClasses - {DarkClass}, ariaPressed := "false")
  }

  /** `updateTheme`: the uniform is re-derived from the flag (0 in night
      mode, 1 otherwise), then the page. */
  function UpdateTheme(t: Theme): (r: Theme)
    ensures Synced(r) && Coherent(r)
    ensures r.nightMix == 0.0 || r.nightMix == 1.0
    ensures r.nightMix == 0.0 <==> t.isDarkMode
    ensures r.isDarkMode == t.isDarkMode
    ensures r.bodyClasses - {DarkClass} == t.bodyClasses - {DarkClass}
  {
    UpdateDom(t.(nightMix := MixFor(t.isDarkMode)))
  }

  /** Construction: the flag starts false; when the browser offers
      `matchMedia` (`systemPrefersDark` is not `None`) the system preference
      replaces it; the theme is then derived. `nightMix`, `bodyClasses` and
      `ariaPressed` are what the page held before. */
  function Create(nightMix: real, bodyClasses: set<string>, ariaPressed: string,
                  systemPrefersDark: Option<bool>): (r: Theme)
    ensures Synced(r) && Coherent(r)
    ensures r.isDarkMode <==> systemPrefersDark == Some(true)
    ensures r.bodyClasses - {DarkClass} == bodyClasses - {DarkClass}
  {
    var t := Theme(false, nightMix, bodyClasses, ariaPressed);
    var t' := match systemPrefersDark
      case Some(matches) => UpdateTheme(t.(isDarkMode := matches))
      case None => t;
    UpdateTheme(t')
  }

  /** `toggle`: the flag flips and everything is re-derived from it. */
  function Toggle(t: Theme): (r: Theme)
    ensures r.isDarkMode == !t.isDarkMode
    ensures Synced(r) && Coherent(r)
    ensures r.bodyClasses - {DarkClass} == t.bodyClasses - {DarkClass}
  {
    UpdateTheme(t.(isDarkMode := !t.isDarkMode))
  }

  /** `setDarkMode`: the flag takes the given value and everything is
      re-derived from it. */
  function SetDarkMode(t: Theme, isDark: bool): (r: Theme)
    ensures r.isDarkMode == isDark
    ensures Synced(r) && Coherent(r)
    ensures r.bodyClasses - {DarkClass} == t.bodyClasses - {DarkClass}
  {
    UpdateTheme(t.(isDarkMode := isDark))
  }

  /** The slider's `onChange`: the panel has already written `value` into the
      uniform; the flag becomes "value is exactly 0" and only the page is
      re-derived, so a mid-range value leaves the uniform out of step with
      the flag's 0/1 mirror. */
  function OnSlider(t: Theme, value: real): (r: Theme)
    requires 0.0 <= value <= 1.0
    ensures r.nightMix == value
    ensures r.isDarkMode <==> value == 0.0
    ensures Coherent(r)
    ensures Synced(r) <==> value == 0.0 || value == 1.0
    ensures r.bodyClasses - {DarkClass} == t.bodyClasses - {DarkClass}
  {
    UpdateDom(t.(nightMix := value, isDarkMode := value == 0.0))
  }

  /** `getIsDarkMode`. */
  function GetIsDarkMode(t: Theme): bool {
    t.isDarkMode
  }

  /** One event, dispatched to its handler. The media-query `change`
      handler does what `setDarkMode` does, with the new preference. */
  function Step(t: Theme, e: Event): (r: Theme)
    requires ValidEvent(e)
    ensures Coherent(r)
    ensures e.Click? ==> r.isDarkMode == !t.isDarkMode
    ensures e.Set? ==> r.isDarkMode == e.isDark
    ensures e.SystemPreference? ==> r.isDarkMode == e.matches
    ensures e.Slider? ==> (r.isDarkMode <==> e.value == 0.0)
  {
    match e
    case Click => Toggle(t)
    case Set(isDark) => SetDarkMode(t, isDark)
    case SystemPreference(matches) => SetDarkMode(t, matches)
    case Slider(value) => OnSlider(t, value)
  }

  /** A sequence of events, in order. */
  function Run(t: Theme, events: seq<Event>): Theme
    requires forall i :: 0 <= i < |events| ==> ValidEvent(events[i])
    decreases |events|
  {
    if |events| == 0 then t else Run(Step(t, events[0]), events[1..])
  }

  /** Every theme reachable from construction is coherent: the page always
      shows the flag, and the flag is set exactly when the uniform is 0. */
  lemma {:induction false} RunKeepsCoherent(t: Theme, events: seq<Event>)
    requires Coherent(t)
    requires forall i :: 0 <= i < |events| ==> ValidEvent(events[i])
    ensures Coherent(Run(t, events))
    decreases |events|
  {
    if |events| > 0 {
      RunKeepsCoherent(Step(t, events[0]), events[1..]);
    }
  }

  /** After any run of events on a constructed manager, the getter, the body
      class, the button attribute and the uniform all agree. */
  lemma GetterAgreesWithMirrors(nightMix: real, bodyClasses: set<string>, ariaPressed: string,
                                systemPrefersDark: Option<bool>, events: seq<Event>)
    requires forall i :: 0 <= i < |events| ==> ValidEvent(events[i])
    ensures var t := Run(Create(nightMix, bodyClasses, ariaPressed, systemPrefersDark), events);
            && (GetIsDarkMode(t) <==> DarkClass in t.bodyClasses)
            && (GetIsDarkMode(t) <==> t.ariaPressed == "true")
            && (GetIsDarkMode(t) <==> t.nightMix == 0.0)
  {
    RunKeepsCoherent(Create(nightMix, bodyClasses, ariaPressed, systemPrefersDark), events);
  }

  /** Toggling twice restores the flag and re-derives the mirrors from it. */
  lemma ToggleTwiceRederives(t: Theme)
    ensures Toggle(Toggle(t)) == UpdateTheme(t)
  {
  }

  /** Toggling twice gives back exactly the prior theme (flag, uniform, body
      classes, `aria-pressed`) if and only if that theme was synced. */
  lemma ToggleTwiceRestores(t: Theme)
    ensures Toggle(Toggle(t)) == t <==> Synced(t)
  {
    ToggleTwiceRederives(t);
    if Synced(t) {
      var r := UpdateTheme(t);
      assert r.bodyClasses == t.bodyClasses;
    }
  }

  /** A parked slider is the one state that toggling twice does not
      restore: from a uniform of 0.5 it comes back at 1. */
  lemma ParkedSliderNotRestored(t: Theme)
    ensures OnSlider(t, 0.5).nightMix == 0.5
    ensures Toggle(Toggle(OnSlider(t, 0.5))).nightMix == 1.0
  {
  }

  /** `setDarkMode` is idempotent. */
  lemma SetDarkModeIdempotent(t: Theme, isDark: bool)
    ensures SetDarkMode(SetDarkMode(t, isDark), isDark) == SetDarkMode(t, isDark)
  {
  }

  /** Setting the opposite of the current flag is a toggle. */
  lemma SetOppositeIsToggle(t: Theme)
    ensures SetDarkMode(t, !t.isDarkMode) == Toggle(t)
  {
  }
}
