/** The dark/light theme: the `dark` class on the page body, the preference persisted under the
    key "theme" in the page's local storage, and the toggle button's icon and text. */
module Theme {
  import opened Options

  /** The local-storage key of the theme preference. */
  const PreferenceKey := "theme"

  /** The toggle's icon: a sun while dark (offering light), a moon while light. */
  datatype Glyph = Sun | Moon

  /** The parts of the page the theme logic reads and writes. `text` and `icon` are `None` when
      the toggle has no such child element; `storage` is the whole local storage. */
  datatype ThemeState = ThemeState(dark: bool, storage: map<string, string>, text: Option<string>, icon: Option<Glyph>)

  /** `localStorage.getItem('theme')`. */
  function SavedTheme(storage: map<string, string>): (saved: Option<string>)
    ensures saved.Some? <==> PreferenceKey in storage
    ensures saved.Some? ==> saved.value == storage[PreferenceKey]
  {
    if PreferenceKey in storage then Some(storage[PreferenceKey]) else None
  }

  /** Start-up turns dark mode on only for a saved value of exactly "dark"; a missing value or any
      other string leaves the page light. */
  function StartsDark(storage: map<string, string>): (dark: bool)
  {
    SavedTheme(storage) == Some("dark")
  }

  /** The value the toggle persists for a mode. */
  function Preference(dark: bool): (value: string)
  {
    if dark then "dark" else "light"
  }

  /** The toggle's label text names the mode a click switches to. */
  function ToggleText(dark: bool): (text: string)
  {
    if dark then "Light Mode" else "Dark Mode"
  }

  function Icon(dark: bool): (glyph: Glyph)
  {
    if dark then Sun else Moon
  }

  /** `updateToggleUI(icon, text, isDark)`: rewrites the icon and text that exist. */
  function Refreshed(s: ThemeState, isDark: bool): (r: ThemeState)
    ensures r.dark == s.dark && r.storage == s.storage
    ensures r.text.Some? == s.text.Some? && r.icon.Some? == s.icon.Some?
    ensures r.text.Some? ==> r.text.value == ToggleText(isDark)
    ensures r.icon.Some? ==> r.icon.value == Icon(isDark)
  {
    s.(text := if s.text.Some? then Some(ToggleText(isDark)) else None,
       icon := if s.icon.Some? then Some(Icon(isDark)) else None)
  }

  /** `initThemeToggle` at start-up: the body starts light; a saved "dark" turns it dark and
      refreshes the toggle; otherwise the toggle keeps the markup's icon and text. */
  function Loaded(storage: map<string, string>, text: Option<string>, icon: Option<Glyph>): (s: ThemeState)
  {
    var s := ThemeState(StartsDark(storage), storage, text, icon);
    if s.dark then Refreshed(s, true) else s
  }

  /** The toggle's click handler: flips the body's `dark` class, persists the new mode and
      refreshes the toggle. */
  function Toggled(s: ThemeState): (t: ThemeState)
  {
    var dark := !s.dark;
    Refreshed(s.(dark := dark, storage := s.storage[PreferenceKey := Preference(dark)]), dark)
  }

  /** The icon and text that exist show mode `dark`. */
  ghost predicate Shows(s: ThemeState, dark: bool)
  {
    (s.text.Some? ==> s.text.value == ToggleText(dark)) && (s.icon.Some? ==> s.icon.value == Icon(dark))
  }

  /** The persisted preference agrees with the flag (reloading the page would restore it), and a
      dark page shows the toggle for dark mode. A light page loaded without a saved "dark" keeps the
      markup's icon and text until the first toggle, so only the dark direction is an invariant. */
  ghost predicate Agrees(s: ThemeState)
  {
    s.dark == StartsDark(s.storage) && (s.dark ==> Shows(s, true))
  }

  // ---------------------------------------------------------------------------------------------

  /** Start-up makes the page dark exactly when the saved value is the string "dark", and leaves
      the storage alone. */
  lemma LoadedIff(storage: map<string, string>, text: Option<string>, icon: Option<Glyph>)
    ensures Loaded(storage, text, icon).dark <==> PreferenceKey in storage && storage[PreferenceKey] == "dark"
    ensures Loaded(storage, text, icon).storage == storage
    ensures Agrees(Loaded(storage, text, icon))
  {
  }

  /** Persisting a mode and reading it back at the next start-up gives the same mode. */
  lemma PreferenceRoundTrip(storage: map<string, string>, dark: bool)
    ensures StartsDark(storage[PreferenceKey := Preference(dark)]) == dark
  {
  }

  /** A toggle flips the mode, stores "dark" exactly when the new mode is dark and "light"
      otherwise, touches no other storage key, shows the new mode, and keeps `Agrees`. */
  lemma ToggleFlips(s: ThemeState)
    ensures Toggled(s).dark == !s.dark
    ensures SavedTheme(Toggled(s).storage) == Some(if Toggled(s).dark then "dark" else "light")
    ensures Toggled(s).storage - {PreferenceKey} == s.storage - {PreferenceKey}
    ensures Shows(Toggled(s), Toggled(s).dark)
    ensures Agrees(Toggled(s))
  {
  }

  /** The label reads "Light Mode" on a dark page and "Dark Mode" on a light one. */
  lemma ToggleTextNamesOtherMode(dark: bool)
    ensures ToggleText(dark) == "Light Mode" <==> dark
    ensures ToggleText(dark) == "Dark Mode" <==> !dark
  {
  }

  /** Toggling twice restores the mode, and the stored preference then agrees with it. */
  lemma ToggleTwice(s: ThemeState)
    ensures Toggled(Toggled(s)).dark == s.dark
    ensures SavedTheme(Toggled(Toggled(s)).storage) == Some(Preference(s.dark))
    ensures StartsDark(Toggled(Toggled(s)).storage) == s.dark
    ensures Shows(Toggled(Toggled(s)), s.dark)
  {
  }

  // ---------------------------------------------------------------------------------------------

  class ThemeToggle {
    /** Whether the body carries the `dark` class. */
    var dark: bool
    /** The page's local storage. */
    var storage: map<string, string>
    /** The text of the toggle's `.theme-toggle-text` child, if it has one. */
    var text: Option<string>
    /** The glyph of the toggle's `.theme-toggle-icon` child, if it has one. */
    var icon: Option<Glyph>

    function State(): (s: ThemeState)
      reads this
    {
      ThemeState(dark, storage, text, icon)
    }

    /** `initThemeToggle`, given the storage and the toggle's icon and text as the page loads. */
    constructor (storage: map<string, string>, text: Option<string>, icon: Option<Glyph>)
      ensures State() == Loaded(storage, text, icon)
      ensures Agrees(State())
    {
      this.dark := false;
      this.storage := storage;
      this.text := text;
      this.icon := icon;
      new;
      var savedTheme := SavedTheme(storage);
      if savedTheme == Some("dark") {
        dark := true;
        UpdateToggleUI(true);
      }
      LoadedIff(storage, text, icon);
    }

    /** `updateToggleUI`: the icon and text that exist show mode `isDark`. */
    method UpdateToggleUI(isDark: bool)
      modifies this`text, this`icon
      ensures State() == Refreshed(old(State()), isDark)
    {
      if icon.Some? {
        icon := Some(Icon(isDark));
      }
      if text.Some? {
        text := Some(ToggleText(isDark));
      }
    }

    /** The toggle's click handler. */
    method Toggle()
      modifies this
      ensures State() == Toggled(old(State()))
      ensures old(Agrees(State())) ==> Agrees(State())
    {
      dark := !dark;
      storage := storage[PreferenceKey := if dark then "dark" else "light"];
      UpdateToggleUI(dark);
      ToggleFlips(old(State()));
    }
  }
}
