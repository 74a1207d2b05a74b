/** Tab navigation of the résumé page: `.tab-btn` buttons, each naming a target section in its
    `data-section` attribute, and `.section` panels, each with an element id. A click clears every
    `active` flag, then sets the clicked button's and its section's; arrow keys click the
    neighbouring button. */
module Tabs {
  import opened Options
  import SkillBars

  /** The id of the section whose activation reveals the skill bars. */
  const SkillsId := "skills"
  const ArrowRight := "ArrowRight"
  const ArrowLeft := "ArrowLeft"

  /** A tab button as the markup provides it. */
  datatype TabButton = TabButton(section: Option<string>, active: bool)
  /** A section panel as the markup provides it. */
  datatype Section = Section(id: string, active: bool)

  /** The id `getElementById` is called with: `button.dataset.section` is `undefined` when the
      attribute is missing, and the lookup converts that to the string "undefined". */
  function LookupKey(target: Option<string>): (key: string)
    ensures target.Some? ==> key == target.value
    ensures target.None? ==> key == "undefined"
  {
    if target.Some? then target.value else "undefined"
  }

  /** The first section, in document order, whose id is `id`, or nothing when there is none. */
  function FirstWithId(ids: seq<string>, id: string): (r: Option<nat>)
    ensures r.Some? ==> r.value < |ids| && ids[r.value] == id
    ensures r.Some? ==> forall j :: 0 <= j < r.value ==> ids[j] != id
    ensures r.None? <==> forall j :: 0 <= j < |ids| ==> ids[j] != id
  {
    if ids == [] then None
    else if ids[0] == id then Some(0)
    else
      match FirstWithId(ids[1..], id)
      case None => None
      case Some(j) => Some(j + 1)
  }

  /** `document.getElementById(id)` over the sections. An empty `id` attribute gives an element no
      id at all, so the empty string finds nothing even when a section's `id` reads as "". */
  function FindSection(ids: seq<string>, id: string): (r: Option<nat>)
    ensures id == "" ==> r.None?
    ensures r.Some? ==> r.value < |ids| && ids[r.value] == id
    ensures r.Some? ==> forall j :: 0 <= j < r.value ==> ids[j] != id
    ensures r.None? <==> id == "" || forall j :: 0 <= j < |ids| ==> ids[j] != id
  {
    if id == "" then None else FirstWithId(ids, id)
  }

  /** The index of the first button, in document order, that carries the `active` class, or -1
      when no button carries it. */
  function FirstActive(flags: seq<bool>): (k: int)
    ensures -1 <= k < |flags|
    ensures k >= 0 ==> flags[k] && forall j :: 0 <= j < k ==> !flags[j]
    ensures k == -1 <==> forall j :: 0 <= j < |flags| ==> !flags[j]
  {
    if flags == [] then -1
    else if flags[0] then 0
    else
      var k := FirstActive(flags[1..]);
      if k == -1 then -1 else k + 1
  }

  /** The button the `keydown` handler clicks among `n` buttons when button `active` is the first
      active one (-1: none): the next one on ArrowRight, the previous one on ArrowLeft, when it exists. */
  function NextIndex(key: string, active: int, n: nat): (r: Option<nat>)
    requires -1 <= active < n
    ensures r.Some? ==> r.value < n
    ensures r.Some? ==> (key == ArrowRight && r.value == active + 1) || (key == ArrowLeft && r.value == active - 1)
  {
    if key == ArrowRight && active < n - 1 then Some(active + 1)
    else if key == ArrowLeft && active > 0 then Some(active - 1)
    else None
  }

  /** `n` flags of which only the one at `i` is set (none when `i` is out of range). */
  function OnlyAt(n: nat, i: int): (s: seq<bool>)
    ensures |s| == n
    ensures forall j :: 0 <= j < n ==> (s[j] <==> j == i)
  {
    seq(n, j => j == i)
  }

  /** The section flags a click on a button with target `target` leaves behind. */
  function SectionsAfterClick(ids: seq<string>, target: Option<string>): (flags: seq<bool>)
  {
    match FindSection(ids, LookupKey(target))
    case Some(j) => OnlyAt(|ids|, j)
    case None => OnlyAt(|ids|, -1)
  }

  /** A click on a button with target `target` schedules the skill-bar reveal. */
  predicate RevealsSkills(ids: seq<string>, target: Option<string>)
  {
    target == Some(SkillsId) && FindSection(ids, SkillsId).Some?
  }

  /** The timers a click on a button with target `target` adds. */
  function ClickTimers(ids: seq<string>, target: Option<string>): (timers: seq<SkillBars.Timer>)
  {
    if RevealsSkills(ids, target) then [SkillBars.RevealLater(SkillBars.ClickRevealDelay)] else []
  }

  ghost predicate Distinct(ids: seq<string>)
  {
    forall j1, j2 :: 0 <= j1 < j2 < |ids| ==> ids[j1] != ids[j2]
  }

  // ---------------------------------------------------------------------------------------------
  // What a click decides

  /** After a click at most one section is active, and the active one is the first section whose id
      is the button's target. */
  lemma ClickedSectionIsFirstMatch(ids: seq<string>, target: Option<string>, j: nat)
    requires j < |ids|
    ensures |SectionsAfterClick(ids, target)| == |ids|
    ensures SectionsAfterClick(ids, target)[j] <==>
      LookupKey(target) != "" && ids[j] == LookupKey(target) && forall m :: 0 <= m < j ==> ids[m] != LookupKey(target)
  {
  }

  /** A button without a `data-section` attribute activates exactly the first section whose id is
      the string "undefined", and no section when there is none. */
  lemma MissingTargetLooksUpUndefined(ids: seq<string>, j: nat)
    requires j < |ids|
    ensures SectionsAfterClick(ids, None)[j] <==>
      ids[j] == "undefined" && forall m :: 0 <= m < j ==> ids[m] != "undefined"
  {
  }

  /** A button whose target is the empty string activates no section, whatever the section ids. */
  lemma EmptyTargetFindsNothing(ids: seq<string>)
    ensures forall j :: 0 <= j < |ids| ==> !SectionsAfterClick(ids, Some(""))[j]
  {
  }

  /** With unique section ids, a section is active after a click exactly when its id is the
      button's target. */
  lemma ClickedSectionIff(ids: seq<string>, target: Option<string>, j: nat)
    requires Distinct(ids) && j < |ids|
    ensures SectionsAfterClick(ids, target)[j] <==> LookupKey(target) != "" && ids[j] == LookupKey(target)
  {
  }

  /** A button whose target names no section leaves no section active. */
  lemma DanglingTarget(ids: seq<string>, target: Option<string>)
    requires forall j :: 0 <= j < |ids| ==> ids[j] != LookupKey(target)
    ensures forall j :: 0 <= j < |ids| ==> !SectionsAfterClick(ids, target)[j]
  {
  }

  /** A click schedules the skill-bar reveal exactly when the button's target is "skills" and a
      section with that id exists. */
  lemma RevealIff(ids: seq<string>, target: Option<string>)
    ensures ClickTimers(ids, target) != [] <==>
      target == Some(SkillsId) && exists j :: 0 <= j < |ids| && ids[j] == SkillsId
    ensures ClickTimers(ids, target) != [] ==> ClickTimers(ids, target) == [SkillBars.RevealLater(100)]
  {
  }

  // ---------------------------------------------------------------------------------------------
  // What a key press decides

  /** The arrow keys never step outside the buttons, and stop at the ends; other keys do nothing. */
  lemma KeyboardEdges(key: string, n: nat)
    ensures n > 0 ==> NextIndex(ArrowLeft, 0, n) == None
    ensures n > 0 ==> NextIndex(ArrowRight, n - 1, n) == None
    ensures forall k :: -1 <= k < n && key != ArrowLeft && key != ArrowRight ==> NextIndex(key, k, n) == None
    ensures forall k :: 0 < k < n ==> NextIndex(ArrowLeft, k, n) == Some(k - 1)
    ensures forall k :: -1 <= k < n - 1 ==> NextIndex(ArrowRight, k, n) == Some(k + 1)
  {
  }

  /** With no active button, ArrowRight selects the first button (if there is one) and ArrowLeft
      does nothing. */
  lemma KeyboardWithoutActive(flags: seq<bool>)
    requires forall j :: 0 <= j < |flags| ==> !flags[j]
    ensures NextIndex(ArrowRight, FirstActive(flags), |flags|) == (if |flags| > 0 then Some(0) else None)
    ensures NextIndex(ArrowLeft, FirstActive(flags), |flags|) == None
  {
  }

  // ---------------------------------------------------------------------------------------------
  // The page's buttons and sections

  class TabBar {
    /** `data-section` of each button, in document order; never written. */
    const targets: seq<Option<string>>
    /** The id of each section, in document order; never written. */
    const sectionIds: seq<string>
    /** The `active` class of each button. */
    const buttonActive: array<bool>
    /** The `active` class of each section. */
    const sectionActive: array<bool>
    /** The skill bars a click on the skills tab reveals. */
    const bars: SkillBars.SkillBoard

    ghost predicate Valid()
      reads this, bars
    {
      && buttonActive.Length == |targets|
      && sectionActive.Length == |sectionIds|
      && buttonActive != sectionActive
      && bars.Valid()
    }

    /** The buttons and sections as the markup provides them. */
    constructor (buttons: seq<TabButton>, sections: seq<Section>, bars: SkillBars.SkillBoard)
      requires bars.Valid()
      ensures Valid() && fresh(buttonActive) && fresh(sectionActive) && this.bars == bars
      ensures |targets| == |buttons| && |sectionIds| == |sections|
      ensures forall j :: 0 <= j < |buttons| ==> targets[j] == buttons[j].section && buttonActive[j] == buttons[j].active
      ensures forall j :: 0 <= j < |sections| ==> sectionIds[j] == sections[j].id && sectionActive[j] == sections[j].active
    {
      targets := seq(|buttons|, j requires 0 <= j < |buttons| => buttons[j].section);
      sectionIds := seq(|sections|, j requires 0 <= j < |sections| => sections[j].id);
      buttonActive := new bool[|buttons|](j requires 0 <= j < |buttons| => buttons[j].active);
      sectionActive := new bool[|sections|](j requires 0 <= j < |sections| => sections[j].active);
      this.bars := bars;
    }

    /** The skills section (the first with id "skills") exists and is active. */
    function SkillsShown(): (shown: bool)
      reads this, bars, sectionActive
      requires Valid()
      ensures shown <==> exists j :: 0 <= j < sectionActive.Length && sectionIds[j] == SkillsId && sectionActive[j]
                            && forall m :: 0 <= m < j ==> sectionIds[m] != SkillsId
    {
      match FindSection(sectionIds, SkillsId)
      case Some(j) => sectionActive[j]
      case None => false
    }

    /** The click handler of button `i`: clears every button and section flag, sets button `i`,
        sets its target section if that exists, and then, when the target is the skills section,
        schedules the skill-bar reveal after 100 ms. Whether or not the section exists, button `i`
        ends up the only active button. */
    method Click(i: nat)
      requires Valid() && i < |targets|
      modifies buttonActive, sectionActive, bars`pending
      ensures Valid()
      ensures buttonActive[..] == OnlyAt(|targets|, i)
      ensures sectionActive[..] == SectionsAfterClick(sectionIds, targets[i])
      ensures bars.pending == old(bars.pending) + ClickTimers(sectionIds, targets[i])
    {
      var targetId := targets[i];
      var j := 0;
      while j < buttonActive.Length
        invariant 0 <= j <= buttonActive.Length
        invariant forall m :: 0 <= m < j ==> !buttonActive[m]
        invariant bars.pending == old(bars.pending)
      {
        buttonActive[j] := false;
        j := j + 1;
      }
      j := 0;
      while j < sectionActive.Length
        invariant 0 <= j <= sectionActive.Length
        invariant forall m :: 0 <= m < j ==> !sectionActive[m]
        invariant forall m :: 0 <= m < buttonActive.Length ==> !buttonActive[m]
        invariant bars.pending == old(bars.pending)
      {
        sectionActive[j] := false;
        j := j + 1;
      }
      buttonActive[i] := true;
      var found := FindSection(sectionIds, LookupKey(targetId));
      if found.Some? {
        sectionActive[found.value] := true;
        if targetId == Some(SkillsId) {
          bars.ScheduleReveal(SkillBars.ClickRevealDelay);
        }
      }
    }

    /** The `keydown` handler: finds the first active button and clicks its right or left
        neighbour on ArrowRight or ArrowLeft when that neighbour exists; otherwise nothing changes. */
    method KeyDown(key: string)
      requires Valid()
      modifies buttonActive, sectionActive, bars`pending
      ensures Valid()
      ensures
        var next := NextIndex(key, FirstActive(old(buttonActive[..])), |targets|);
        if next.Some? then
          && buttonActive[..] == OnlyAt(|targets|, next.value)
          && sectionActive[..] == SectionsAfterClick(sectionIds, targets[next.value])
          && bars.pending == old(bars.pending) + ClickTimers(sectionIds, targets[next.value])
        else
          && buttonActive[..] == old(buttonActive[..])
          && sectionActive[..] == old(sectionActive[..])
          && bars.pending == old(bars.pending)
    {
      var active := FirstActive(buttonActive[..]);
      var next := NextIndex(key, active, buttonActive.Length);
      if next.Some? {
        Click(next.value);
      }
    }
  }
}
