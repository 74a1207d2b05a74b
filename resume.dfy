/** The page's `DOMContentLoaded` handler: sets up the theme toggle, the tabs and the skill bars,
    in that order. (The scroll-reveal and tilt effects it also installs are not modelled.) */
module Resume {
  import opened Options
  import Theme
  import SkillBars
  import Tabs

  /** Start-up from the storage and the markup: the theme is loaded from the saved preference, the
      tabs keep the markup's flags, every bar is collapsed to "0%", and a reveal is scheduled after
      500 ms exactly when the skills section is already the active one. */
  method Startup(storage: map<string, string>, text: Option<string>, icon: Option<Theme.Glyph>,
                 buttons: seq<Tabs.TabButton>, sections: seq<Tabs.Section>, fills: seq<SkillBars.SkillFill>)
    returns (theme: Theme.ThemeToggle, tabs: Tabs.TabBar)
    ensures fresh(theme) && fresh(tabs) && fresh(tabs.bars) && fresh(tabs.bars.width)
    ensures fresh(tabs.buttonActive) && fresh(tabs.sectionActive)
    ensures theme.State() == Theme.Loaded(storage, text, icon)
    ensures tabs.Valid() && tabs.buttonActive.Length == |buttons| && tabs.sectionActive.Length == |sections|
    ensures tabs.targets == seq(|buttons|, j requires 0 <= j < |buttons| => buttons[j].section)
    ensures tabs.sectionIds == seq(|sections|, j requires 0 <= j < |sections| => sections[j].id)
    ensures tabs.bars.dataWidth == seq(|fills|, b requires 0 <= b < |fills| => fills[b].dataWidth)
    ensures tabs.bars.width.Length == |fills|
    ensures forall j :: 0 <= j < |buttons| ==> tabs.buttonActive[j] == buttons[j].active
    ensures forall j :: 0 <= j < |sections| ==> tabs.sectionActive[j] == sections[j].active
    ensures forall b :: 0 <= b < tabs.bars.width.Length ==> tabs.bars.width[b] == SkillBars.Collapsed
    ensures tabs.bars.pending == if tabs.SkillsShown() then [SkillBars.RevealLater(SkillBars.LoadRevealDelay)] else []
  {
    theme := new Theme.ThemeToggle(storage, text, icon);
    var bars := new SkillBars.SkillBoard(fills);
    tabs := new Tabs.TabBar(buttons, sections, bars);
    var shown := tabs.SkillsShown();
    bars.InitSkillBars(shown);
  }
}
