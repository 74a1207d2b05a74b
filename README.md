# Résumé page UI: tabs, theme and skill bars in Dafny

This project models the state logic of the résumé page's client-side script
(`assets/static/js/main.js`). It covers three parts, each kept as abstract page state:

- **Tab navigation.** The `.tab-btn` buttons carry a target section id (`data-section`) and an
  `active` flag. The `.section` panels carry an element id and an `active` flag.
  - Clicking a button clears every flag, then sets the clicked button's flag.
  - It also sets the flag of the section that `getElementById` finds for the target, if there is one.
  - When that section is `skills`, the click schedules the skill-bar reveal after 100 ms.
  - ArrowRight and ArrowLeft "click" the neighbour of the first active button, when that neighbour exists.
- **Theme toggle.** This covers the body's `dark` class, the `theme` key in local storage, and the
  toggle's icon and label.
  - Start-up turns dark mode on only for a saved value of exactly `"dark"`.
  - Each toggle flips the mode, stores `"dark"` or `"light"`, and relabels the toggle.
- **Skill bars.** Each `.skill-fill` has a static `data-width` and a current inline width.
  - Start-up collapses every bar to `"0%"`.
  - The reveal routine schedules one write per bar: bar `i` gets `data-width || "0%"` after `i * 100` ms.
  - Pending timers are a sequence. They may fire in any order.

Modules:
- `Options` holds the `Option` datatype.
- `Theme` holds the pure theme transitions and the `ThemeToggle` class.
- `SkillBars` holds the timer model, the order-independence lemmas and the `SkillBoard` class.
- `Tabs` holds the click and keyboard decisions and the `TabBar` class.
- `Resume` holds the `DOMContentLoaded` start-up.

Each class method is proved against a pure function of the old state (`Toggled`, `OnlyAt`,
`SectionsAfterClick`, `ClickTimers`, `RevealSchedule`, `Settled`). The lemmas prove the promised
properties about those functions.

Edge cases of the code that the model keeps:
- `setItem` has no `try`/`catch`, so a failing storage write is not modelled; see "Left out".
- A target that names no section leaves no section active (`Tabs.DanglingTarget`).
- Start-up picks no default section; the markup's flags stay until the first click.
- A button without a `data-section` attribute looks up the id `"undefined"`
  (`Tabs.MissingTargetLooksUpUndefined`).
- An empty target finds no section, because an empty `id` gives an element no id
  (`Tabs.EmptyTargetFindsNothing`).
- `getElementById` returns the first matching element, so with duplicate section ids only the first
  match becomes active (`Tabs.ClickedSectionIsFirstMatch`).

## Model

| member | source | states |
|---|---|---|
| `Theme.LoadedIff` | assets/static/js/main.js:22-27 | start-up makes the page dark iff the stored `theme` value is exactly `"dark"`, leaves storage alone, and the loaded state keeps the flag/storage/toggle agreement |
| `Theme.PreferenceRoundTrip` | assets/static/js/main.js:23-31 | the value a toggle stores, read back by start-up, gives the same mode |
| `Theme.ToggleFlips` | assets/static/js/main.js:29-32 | a toggle flips the mode, stores `"dark"` iff the new mode is dark (else `"light"`), leaves every other storage key unchanged, shows the new mode, and keeps the agreement invariant |
| `Theme.ToggleTextNamesOtherMode` | assets/static/js/main.js:47-49 | the label is `"Light Mode"` iff the page is dark and `"Dark Mode"` iff it is light |
| `Theme.ToggleTwice` | assets/static/js/main.js:29-32 | toggling twice restores the mode, and the stored preference and the toggle then agree with it |
| `Theme.ThemeToggle.constructor` | assets/static/js/main.js:17-28 | the object starts in the loaded state and satisfies the agreement invariant |
| `Theme.ThemeToggle.UpdateToggleUI` | assets/static/js/main.js:39-50 | the new state is the refreshed old state |
| `Theme.ThemeToggle.Toggle` | assets/static/js/main.js:29-33 | the new state is the toggled old state, and the agreement invariant is preserved |
| `SkillBars.TargetWidth` | assets/static/js/main.js:150 | the revealed width is never empty; it is `data-width` when that is present and non-empty, otherwise `"0%"` |
| `SkillBars.ScheduleShape` | assets/static/js/main.js:149-156 | the reveal schedules one timer per bar, and bar `k`'s timer writes its target width at delay `k * 100` |
| `SkillBars.OneWritePerBar` | assets/static/js/main.js:149-156 | the reveal writes each bar exactly once and no index outside the bars |
| `SkillBars.ScheduleCovers` | assets/static/js/main.js:149-156 | every write the reveal schedules carries its bar's target width, and every bar gets a write |
| `SkillBars.ScheduleHasNoReveal` | assets/static/js/main.js:146-157 | the reveal schedules only width writes, never another deferred reveal |
| `SkillBars.ApplyWritesAt` | assets/static/js/main.js:153-155 | once a list of consistent writes fires, a bar that some write targets ends at its target width, and every other bar keeps its width |
| `SkillBars.AnyOrder` | assets/static/js/main.js:153-155 | two firing orders of the same consistent writes (equal multisets) give the same widths |
| `SkillBars.RevealReachesTargets` | assets/static/js/main.js:146-157 | once one reveal's writes have fired, every bar's width is exactly its target string |
| `SkillBars.StaleWritesHarmless` | assets/static/js/main.js:146-157 | stale consistent writes from earlier reveals, interleaved in any order with a new reveal's writes, still leave every bar at its target |
| `SkillBars.RevealIdempotent` | assets/static/js/main.js:146-157 | running the reveal twice gives the same final widths as running it once |
| `SkillBars.ExampleBar` | assets/static/js/main.js:150-154 | a bar with `data-width` `"83%"` ends at exactly `"83%"` |
| `SkillBars.SkillBoard.constructor` | assets/static/js/main.js:134 | the bars take the markup's attributes and widths, and no timer is pending |
| `SkillBars.SkillBoard.ScheduleReveal` | assets/static/js/main.js:75 | `setTimeout(animateSkillBars, delay)` appends exactly one deferred reveal with that delay |
| `SkillBars.SkillBoard.InitSkillBars` | assets/static/js/main.js:132-144 | every bar's width becomes `"0%"`; a 500 ms reveal is queued iff the skills section is active; nothing else changes |
| `SkillBars.SkillBoard.AnimateSkillBars` | assets/static/js/main.js:146-157 | the pending timers become the old ones followed by exactly the reveal schedule; no width changes yet |
| `SkillBars.SkillBoard.Fire` | assets/static/js/main.js:153-155 | firing any pending timer removes just that timer. A width write sets only its bar. A deferred reveal appends the reveal schedule and leaves widths alone |
| `SkillBars.SkillBoard.Settle` | assets/static/js/main.js:149-156 | after all pending timers fire in an arbitrary order, nothing is pending. Each bar some timer touched holds its target width; every other bar keeps its width |
| `Tabs.FirstWithId` | assets/static/js/main.js:69 | the result is the first section whose id matches, or none iff no section has that id |
| `Tabs.FindSection` | assets/static/js/main.js:69 | like `getElementById`: the empty id finds nothing; any other id finds the first section with that id, or nothing iff no section has it |
| `Tabs.FirstActive` | assets/static/js/main.js:255 | the result is the index of the first active button, or -1 iff no button is active |
| `Tabs.NextIndex` | assets/static/js/main.js:257-261 | a key press only selects a button inside `[0, n-1]`: the next one on ArrowRight or the previous one on ArrowLeft |
| `Tabs.ClickedSectionIsFirstMatch` | assets/static/js/main.js:61-71 | after a click, a section is active iff the looked-up id is non-empty and the section is the first one with that id |
| `Tabs.MissingTargetLooksUpUndefined` | assets/static/js/main.js:61-71 | a button without `data-section` activates exactly the first section whose id is `"undefined"`, and none if there is no such section |
| `Tabs.EmptyTargetFindsNothing` | assets/static/js/main.js:61-71 | a button whose target is the empty string leaves no section active |
| `Tabs.ClickedSectionIff` | assets/static/js/main.js:65-71 | with unique ids, a section is active after a click iff the target is non-empty and equals its id |
| `Tabs.DanglingTarget` | assets/static/js/main.js:69-71 | a target that names no section leaves no section active |
| `Tabs.RevealIff` | assets/static/js/main.js:70-76 | a click schedules the 100 ms skill-bar reveal iff its target is exactly `"skills"` and such a section exists; any other click adds no timer |
| `Tabs.KeyboardEdges` | assets/static/js/main.js:257-261 | ArrowLeft at index 0, ArrowRight at the last index, and any other key select nothing; otherwise the arrows select the neighbour |
| `Tabs.KeyboardWithoutActive` | assets/static/js/main.js:255-261 | with no active button, ArrowRight selects index 0 (if any button exists) and ArrowLeft selects nothing |
| `Tabs.TabBar.constructor` | assets/static/js/main.js:56-57 | the buttons and sections take the markup's targets, ids and flags |
| `Tabs.TabBar.SkillsShown` | assets/static/js/main.js:140-141 | the result is true iff the first section with id `"skills"` exists and is active |
| `Tabs.TabBar.Click` | assets/static/js/main.js:60-84 | button `i` becomes the only active button, whether or not its section exists. The section flags become those the click decides. The pending timers gain exactly the click's timers |
| `Tabs.TabBar.KeyDown` | assets/static/js/main.js:253-262 | if the key selects a neighbour of the first active button, the state becomes that button's click; otherwise nothing changes |
| `Resume.Startup` | assets/static/js/main.js:6-12 | start-up creates new objects and flag arrays, so callers can then click and press keys. The theme is loaded from storage. The tabs take the markup's targets, ids and flags. The bars take the markup's `data-width`s, one bar per fill, and every bar is `"0%"`. A 500 ms reveal is pending iff the skills section is active |

## Left out

- Ripple effect (`createRipple`) and the injected stylesheets are left out. They create elements and
  keyframes and do not change any state the model tracks.
- The mouse-move tilt (`initParallaxEffects`) is left out. It is floating-point geometry rendered into CSS
  transform strings.
- Scroll-reveal animations (`initScrollAnimations`) are left out. They are driven by the browser's
  `IntersectionObserver`. Its skills branch calls the same reveal routine,
  `SkillBars.SkillBoard.AnimateSkillBars`.
- These rendering and timing effects are left out: `scrollIntoView`, the icon rotation timer, the
  body transition style, the `loaded` class, and the card stagger after load.
- `debounce` and the resize listener are left out. They are timer semantics with an empty callback.
- The `console.log` banner is left out.
- Real time is not modelled. Timer delays are recorded, but pending timers may fire in any order.
  This covers the browser's delay order.
- Local-storage failures are not modelled. The code has no `try`/`catch`, so a failing `setItem`
  would abort the handler with the flag already flipped. Storage is a map that always accepts writes.
- A page without the `themeToggle` element registers no toggle handler. `Theme.ThemeToggle.Toggle`
  models the handler of a toggle that exists. Missing icon and label children are modelled as `None`.
- The body is assumed to start without the `dark` class; the markup decides that.
- `getElementById` searches the whole document. The model searches only the sections, so a
  non-section element with the target id is outside the model.
- The event-listener wiring (`addEventListener`, `.click()` dispatch) is not modelled. `Click` and
  `KeyDown` model the handlers that those listeners run.
- `data-width` is assumed to be a width in canonical CSS form. The browser ignores an invalid
  `style.width` value and normalises an accepted one (`" 83% "` reads back as `"83%"`), while the
  model stores the string unchanged.
- `Theme.Glyph` models the icon's text as one of the two glyphs the code writes. The markup's
  initial icon text is therefore assumed to be one of them; the label text is free.
