/** Starting the program again and again: the migrated configuration is stable from the second start on. */
module ConfigSettling {
  import opened Wrappers
  import opened Strings
  import opened PromptText
  import opened ConfigMigration
  import StripSettling

  datatype Saved = Saved(templates: seq<Template>, modes: seq<Mode>)

  function Loaded(w: Wording, s: Saved): Saved
    requires Fits(w)
  {
    Saved(MigratedTemplates(w, s.templates), MigratedModes(w, s.modes))
  }

  class ConfigManager {
    var file: Saved
    var config: Saved

    /** A start: load, and write back if the load asks for it. Either way the file then holds what was loaded. */
    constructor (w: Wording, onDisk: Saved)
      requires Fits(w)
      ensures config == Loaded(w, onDisk) && file == config
    {
      var templates, changed := MigrateTemplates(w, onDisk.templates);
      var modes, changed2 := MigrateModes(w, onDisk.modes);
      config := Saved(templates, modes);
      file := if changed || changed2 then Saved(templates, modes) else onDisk;
    }
  }

  /** The file after a number of starts. */
  function AfterStarts(w: Wording, s: Saved, n: nat): Saved
    requires Fits(w)
  {
    if n == 0 then s else Loaded(w, AfterStarts(w, s, n - 1))
  }

  // ---------- names and templates ----------

  lemma {:induction false} NoEmojiLeft(s: string)
    ensures forall c | c in NoEmoji(s) :: !IsEmoji(c)
  {
    if s != "" {
      NoEmojiLeft(s[1..]);
    }
  }

  lemma {:induction false} NothingToClean(s: string)
    requires forall c | c in s :: !IsEmoji(c)
    ensures NoEmoji(s) == s
  {
    if s != "" {
      NothingToClean(s[1..]);
      assert s == [s[0]] + s[1..];
    }
  }

  lemma CleanedOnce(name: string)
    ensures CleanName(CleanName(name)) == CleanName(name)
  {
    hide LStrip, RStrip;
    NoEmojiLeft(name);
    var s := NoEmoji(name);
    TrimMeaning(s);
    LStripIsSuffix(IsSpace, s);
    RStripIsPrefix(IsSpace, LStrip(IsSpace, s));
    forall c | c in Trim(s) ensures !IsEmoji(c) {
      assert c in LStrip(IsSpace, s);
      assert c in s;
    }
    NothingToClean(Trim(s));
    TrimMeaning(Trim(s));
  }

  /** A name of plain visible ends and no emoji is clean already. */
  lemma CleanLiteral(name: string)
    requires name != "" && Trimmed(name) && forall c | c in name :: !IsEmoji(c)
    ensures CleanName(name) == name
  {
    NothingToClean(name);
    TrimMeaning(name);
  }

  lemma RenamedOnce(name: string)
    ensures Renamed(Renamed(name)) == Renamed(name)
  {
    hide CleanName;
    CleanedOnce(name);
    CleanLiteral("Polish and Refine");
  }

  lemma MigratedTemplateOnce(w: Wording, t: Template)
    requires Fits(w)
    ensures MigratedTemplate(w, MigratedTemplate(w, t)) == MigratedTemplate(w, t)
  {
    hide CleanName;
    if t.name.Some? {
      RenamedOnce(t.name.value);
    }
    CleanLiteral("Professional Tone");
    assert w.templatePrompts[1] in w.templatePrompts;
  }

  lemma EachOnce(w: Wording, templates: seq<Template>)
    requires Fits(w)
    ensures Each(w, Each(w, templates)) == Each(w, templates)
  {
    hide MigratedTemplate;
    forall i | 0 <= i < |templates| ensures Each(w, Each(w, templates))[i] == Each(w, templates)[i] {
      MigratedTemplateOnce(w, templates[i]);
    }
  }

  /** The built-in set is not all legacy, and a load leaves it alone. */
  lemma DefaultsStay(w: Wording)
    requires Fits(w)
    ensures !OnlyLegacy(Defaults(w)) && Each(w, Defaults(w)) == Defaults(w)
    ensures MigratedTemplates(w, Defaults(w)) == Defaults(w)
  {
    hide IsLegacy, Renamed, StructuralLine, HasStructure, StartsOld;
    var d := Defaults(w);
    NotLegacy();
    DefaultNames();
    assert d[2] in d && NameOf(d[2]) == "Academic & Scholarly";
    forall i | 0 <= i < 4 ensures Each(w, d)[i] == d[i] {
      NewPrompts(w, i);
    }
  }

  lemma DefaultNames()
    ensures Renamed("Clean Up Dictation") == "Clean Up Dictation" && Renamed("Professional Tone") == "Professional Tone"
    ensures Renamed("Academic & Scholarly") == "Academic & Scholarly" && Renamed("Notes Assistant") == "Notes Assistant"
  {
    hide CleanName;
    CleanLiteral("Clean Up Dictation");
    CleanLiteral("Professional Tone");
    CleanLiteral("Academic & Scholarly");
    CleanLiteral("Notes Assistant");
  }

  lemma NewPrompts(w: Wording, i: nat)
    requires Fits(w) && i < 4
    ensures |w.templatePrompts| == 4 && w.templatePrompts[i] != w.oldTemplate
  {
    assert w.templatePrompts[i] in w.templatePrompts;
  }

  lemma NotLegacy()
    ensures !IsLegacy("Academic & Scholarly") && !IsLegacy("Polish & Refine")
    ensures IsLegacy("Polish and Refine")
  {
  }

  /** Two loads are enough for any templates. */
  lemma TemplatesSettle(w: Wording, templates: seq<Template>)
    requires Fits(w)
    ensures var twice := MigratedTemplates(w, MigratedTemplates(w, templates));
            MigratedTemplates(w, twice) == twice
  {
    hide OnlyLegacy, Defaults;
    DefaultsStay(w);
    EachOnce(w, templates);
  }

  /** One load is enough exactly unless it turns the names into legacy names that the next load throws away. */
  lemma TemplatesSettleAtOnce(w: Wording, templates: seq<Template>)
    requires Fits(w)
    ensures MigratedTemplates(w, MigratedTemplates(w, templates)) == MigratedTemplates(w, templates) <==>
              templates == [] || OnlyLegacy(templates)
              || exists t | t in templates :: !IsLegacy(NameOf(MigratedTemplate(w, t)))
  {
    hide OnlyLegacy, Defaults, IsLegacy, MigratedTemplate;
    DefaultsStay(w);
    EachOnce(w, templates);
    if templates != [] {
      EachLegacy(w, templates);
    }
  }

  lemma EachLegacy(w: Wording, templates: seq<Template>)
    requires Fits(w) && templates != []
    ensures OnlyLegacy(Each(w, templates)) <==> forall t | t in templates :: IsLegacy(NameOf(MigratedTemplate(w, t)))
  {
    hide IsLegacy, MigratedTemplate;
    var each := Each(w, templates);
    forall t | t in templates ensures MigratedTemplate(w, t) in each {
      var i :| 0 <= i < |templates| && templates[i] == t;
      assert each[i] in each;
    }
  }

  /** The rename does it: a lone "Polish & Refine" is renamed by the first load and replaced by the second. */
  lemma RenameIsReplaced(w: Wording, prompt: string)
    requires Fits(w) && prompt != w.oldTemplate
    ensures var own := [Template(Some("Polish & Refine"), Some(prompt))];
            && MigratedTemplates(w, own) == [Template(Some("Polish and Refine"), Some(prompt))]
            && MigratedTemplates(w, MigratedTemplates(w, own)) == Defaults(w)
  {
    hide IsLegacy, CleanName, Defaults;
    NotLegacy();
    CleanLiteral("Polish & Refine");
    var own := [Template(Some("Polish & Refine"), Some(prompt))];
    assert own[0] in own && NameOf(own[0]) == "Polish & Refine";
    assert MigratedTemplates(w, own) == [Template(Some("Polish and Refine"), Some(prompt))];
  }

  // ---------- modes ----------

  lemma ThresholdOnce(i: nat, m: Mode)
    ensures ResetThreshold(i, ResetThreshold(i, m)) == ResetThreshold(i, m)
  {
    hide Drifted;
  }

  /** The prompt of the place after one, two and three loads, when only the stripper is at work. */
  lemma ReducedSettles(rules: set<string>, prompt: Option<string>)
    ensures var twice := Reduced(rules, Reduced(rules, prompt)); Reduced(rules, twice) == twice
  {
    hide Stripped, HasStructure;
    if prompt.Some? {
      StripSettling.StripSettles(rules, prompt.value);
    }
  }

  lemma StructureStays(rules: set<string>, prompt: string)
    requires HasStructure(Stripped(rules, prompt))
    ensures HasStructure(Stripped(rules, Stripped(rules, prompt)))
  {
    hide Stripped, Contains;
    if Contains(Stripped(rules, prompt), "EXAMPLES:") {
      StripSettling.MarkStays(rules, prompt, "EXAMPLES:");
    } else {
      StripSettling.MarkStays(rules, prompt, "RULES (non-negotiable):");
    }
  }

  /** Stripping twice never arrives at a retired prompt unless stripping once did. */
  lemma NotRetiredLate(w: Wording, prompt: string)
    requires Fits(w) && HasStructure(Stripped(w.rules, prompt))
    ensures Stripped(w.rules, Stripped(w.rules, prompt)) !in w.retired
  {
    hide Stripped, HasStructure, StartsOld, Kept;
    StructureStays(w.rules, prompt);
    var twice := Stripped(w.rules, Stripped(w.rules, prompt));
    if twice in w.retired {
      assert StructuralLine(w, twice);
      var l :| l in Lines(After(twice).value) && !Kept(w.rules, l);
      StripSettling.NothingLeftToTake(w.rules, Stripped(w.rules, prompt), l);
    }
  }

  lemma StartsOldStays(rules: set<string>, prompt: Option<string>)
    ensures var once := Reduced(rules, prompt);
            StartsOldPrompt(Reduced(rules, once)) ==> StartsOldPrompt(once)
  {
    hide Stripped, HasStructure, OldStart;
    OldStartPlain(false);
    OldStartPlain(true);
    if prompt.Some? {
      StripSettling.StartStays(rules, prompt.value, OldStart(false));
      StripSettling.StartStays(rules, prompt.value, OldStart(true));
    }
    assert OldStart(false) <= "" ==> OldStart(false) == "";
    assert OldStart(true) <= "" ==> OldStart(true) == "";
  }

  lemma OldStartPlain(second: bool)
    ensures OldStart(second) != "" && BREAK !in OldStart(second)
  {
    if second {
      NoBreakJoined("You are a precise ", "spellchecker.");
    } else {
      NoBreakJoined("Fix spelling mistakes. ", "Change nothing else.");
    }
  }

  lemma NoBreakJoined(a: string, b: string)
    requires BREAK !in a && BREAK !in b
    ensures BREAK !in a + b
  {
  }

  predicate StartsOldPrompt(prompt: Option<string>) {
    StartsOld(match prompt case None => "" case Some(p) => p)
  }

  /** The prompt at one place over three loads, given which of the loads refreshed the built-in prompts. */
  lemma PromptSettles(w: Wording, i: nat, r0: bool, r1: bool, prompt: Option<string>)
    requires Fits(w)
    ensures var twice := MigratedPrompt(w, i, r1, MigratedPrompt(w, i, r0, prompt));
            MigratedPrompt(w, i, false, twice) == twice
  {
    hide Stripped, HasStructure, StartsOld, StructuralLine;
    if i < 3 && r1 {
    } else if i < 3 && r0 {
    } else if i == 2 && prompt.Some? {
      StripSettling.StripSettles(w.rules, prompt.value);
      if HasStructure(Stripped(w.rules, prompt.value)) {
        NotRetiredLate(w, prompt.value);
      }
    } else {
      ReducedSettles(w.rules, prompt);
    }
  }

  lemma RefreshesAt(w: Wording, prompt: Option<string>)
    requires Fits(w)
    ensures var r0 := StartsOldPrompt(prompt);
            var once := MigratedPrompt(w, 0, r0, prompt);
            var twice := MigratedPrompt(w, 0, StartsOldPrompt(once), once);
            !StartsOldPrompt(twice)
  {
    hide Stripped, HasStructure, StartsOld, StructuralLine;
    StartsOldStays(w.rules, prompt);
  }

  lemma ModeAt(w: Wording, modes: seq<Mode>, i: nat)
    requires Fits(w) && |modes| >= 4 && i < |modes|
    ensures |MigratedModes(w, modes)| == |modes|
    ensures MigratedModes(w, modes)[i] == MigratedMode(w, i, StartsOldPrompt(modes[0].prompt), modes[i])
  {
    hide MigratedMode, StartsOld;
  }

  /** Two loads are enough for any modes, whatever the stripper makes of their prompts. */
  lemma ModesSettle(w: Wording, modes: seq<Mode>)
    requires Fits(w)
    ensures var twice := MigratedModes(w, MigratedModes(w, modes));
            MigratedModes(w, twice) == twice
  {
    hide MigratedMode, MigratedModes, StartsOldPrompt;
    var all := Extended(w, modes);
    ExtendedFirst(w, modes);
    var n := |all|;
    ModeAt(w, all, 0);
    var once := MigratedModes(w, all);
    ModeAt(w, once, 0);
    var twice := MigratedModes(w, once);
    ModeAt(w, twice, 0);
    var thrice := MigratedModes(w, twice);
    OnePlace(w, 0, StartsOldPrompt(all[0].prompt), StartsOldPrompt(once[0].prompt), all[0]);
    RefreshesAt(w, all[0].prompt);
    forall i | 0 <= i < n ensures thrice[i] == twice[i] {
      ModeAt(w, all, i);
      ModeAt(w, once, i);
      ModeAt(w, twice, i);
      OnePlace(w, i, StartsOldPrompt(all[0].prompt), StartsOldPrompt(once[0].prompt), all[i]);
    }
  }

  /**
    What a place of the saved modes must not hold if one load is to be enough: a structured prompt that strips into an
    old spelling prompt at the first place, into a retired one at the third, or anywhere into one that is still
    structured and begins its kept lines with white space.
  */
  predicate SettlesAtOnce(w: Wording, i: nat, refresh: bool, prompt: Option<string>) {
    || prompt.None? || !HasStructure(prompt.value)
    || (i < 3 && refresh) || (i == 2 && prompt.value in w.retired)
    || var head, kept := StripSettling.Headline(prompt.value), StripSettling.KeptText(w.rules, prompt.value);
       var result := StripSettling.Text(head, kept);
       && !(i == 0 && StartsOld(head))
       && !(i == 2 && result in w.retired)
       && !(HasStructure(result) && kept != "" && IsSpace(kept[0]))
  }

  /** The stripped prompt of a structured one, by its headline and its kept lines. */
  lemma StrippedParts(rules: set<string>, prompt: string)
    requires HasStructure(prompt)
    ensures var head, kept := StripSettling.Headline(prompt), StripSettling.KeptText(rules, prompt);
            && Stripped(rules, prompt) == StripSettling.Text(head, kept)
            && (Stripped(rules, Stripped(rules, prompt)) == Stripped(rules, prompt) <==> kept == "" || !IsSpace(kept[0]))
            && (StartsOld(Stripped(rules, prompt)) <==> StartsOld(head))
  {
    hide *;
    StructureIsVisible(prompt);
    StripSettling.StrippedShape(rules, prompt);
    StripSettling.IdempotentExactly(rules, prompt);
    var head, kept := StripSettling.Headline(prompt), StripSettling.KeptText(rules, prompt);
    StartsOldText(head, kept);
  }

  lemma StartsOldText(head: string, kept: string)
    ensures StartsOld(StripSettling.Text(head, kept)) <==> StartsOld(head)
  {
    hide OldStart, StripSettling.Text;
    OldStartPlain(false);
    OldStartPlain(true);
    StripSettling.StartOfText(head, kept, OldStart(false));
    StripSettling.StartOfText(head, kept, OldStart(true));
  }

  lemma StructureIsVisible(prompt: string)
    requires HasStructure(prompt)
    ensures Trim(prompt) != ""
  {
    hide LStrip, RStrip, Contains;
    var mark := if Contains(prompt, "EXAMPLES:") then "EXAMPLES:" else "RULES (non-negotiable):";
    StripSettling.ContainsLStrip(prompt, mark);
    StripSettling.ContainsSome(LStrip(IsSpace, prompt), mark);
    LStripMeaning(prompt);
    StripSettling.RStripSome(LStrip(IsSpace, prompt));
  }

  /** One place, when the next load does not refresh the built-in prompts. */
  lemma PlaceAtOnce(w: Wording, i: nat, refresh: bool, prompt: Option<string>)
    requires Fits(w) && (i == 0 ==> refresh == StartsOldPrompt(prompt))
    ensures var once := MigratedPrompt(w, i, refresh, prompt);
            && (i == 0 && StartsOldPrompt(once) ==> !SettlesAtOnce(w, i, refresh, prompt))
            && (!(i == 0 && StartsOldPrompt(once)) ==>
                  (MigratedPrompt(w, i, false, once) == once <==> SettlesAtOnce(w, i, refresh, prompt)))
  {
    hide Stripped, HasStructure, StartsOld, StructuralLine, StripSettling.Headline, StripSettling.KeptText, StripSettling.Text;
    if prompt.Some? && HasStructure(prompt.value) && !(i < 3 && refresh) && !(i == 2 && prompt.value in w.retired) {
      StrippedParts(w.rules, prompt.value);
    }
  }

  /**
    One load is enough for the modes if and only if every place settles at once. Otherwise the next load strips again,
    replaces the third prompt, or takes the first for an old one and replaces all three built-in prompts.
  */
  lemma ModesSettleAtOnce(w: Wording, modes: seq<Mode>)
    requires Fits(w)
    ensures var all := Extended(w, modes);
            MigratedModes(w, MigratedModes(w, modes)) == MigratedModes(w, modes) <==>
              forall i | 0 <= i < |all| :: SettlesAtOnce(w, i, StartsOldPrompt(all[0].prompt), all[i].prompt)
  {
    hide MigratedMode, MigratedModes, StartsOldPrompt, SettlesAtOnce;
    var all := Extended(w, modes);
    ExtendedFirst(w, modes);
    var once := MigratedModes(w, all);
    var twice := MigratedModes(w, once);
    var r0 := StartsOldPrompt(all[0].prompt);
    ModeAt(w, all, 0);
    var r1 := StartsOldPrompt(once[0].prompt);
    forall i | 0 <= i < |all|
      ensures twice[i] == MigratedMode(w, i, r1, once[i]) && once[i] == MigratedMode(w, i, r0, all[i])
      ensures !r1 ==> (twice[i] == once[i] <==> SettlesAtOnce(w, i, r0, all[i].prompt))
    {
      ModeAt(w, all, i);
      ModeAt(w, once, i);
      OneMoreLoad(w, i, r0, r1, all[i]);
      PlaceAtOnce(w, i, r0, all[i].prompt);
    }
    OneMoreLoad(w, 0, r0, r1, all[0]);
    PlaceAtOnce(w, 0, r0, all[0].prompt);
    if r1 {
      RefreshShows(w, once[0]);
      assert twice[0] != once[0];
    }
  }

  /** An old spelling prompt in the first place does not survive a load. */
  lemma RefreshShows(w: Wording, m: Mode)
    requires Fits(w) && StartsOldPrompt(m.prompt)
    ensures MigratedMode(w, 0, true, m) != m
  {
    hide Stripped, HasStructure, StartsOld, StructuralLine, Drifted;
  }

  /** Thresholds and names settle at once; so a place changes exactly if its prompt does. */
  lemma OneMoreLoad(w: Wording, i: nat, r0: bool, r1: bool, m: Mode)
    requires Fits(w)
    ensures var once := MigratedMode(w, i, r0, m);
            && once.prompt == MigratedPrompt(w, i, r0, m.prompt)
            && (MigratedMode(w, i, r1, once) == once <==> MigratedPrompt(w, i, r1, once.prompt) == once.prompt)
  {
    hide Drifted, Decimal, MigratedPrompt, Fits;
    ThresholdOnce(i, m);
  }

  lemma ExtendedFirst(w: Wording, modes: seq<Mode>)
    requires Fits(w)
    ensures MigratedModes(w, modes) == MigratedModes(w, Extended(w, modes))
  {
    hide MigratedMode, StartsOld;
    var all := Extended(w, modes);
    assert Extended(w, all) == all;
  }

  lemma OnePlace(w: Wording, i: nat, r0: bool, r1: bool, m: Mode)
    requires Fits(w)
    ensures MigratedMode(w, i, r0, m).prompt == MigratedPrompt(w, i, r0, m.prompt)
    ensures var once := MigratedMode(w, i, r0, m);
            MigratedMode(w, i, r1, once).prompt == MigratedPrompt(w, i, r1, once.prompt)
    ensures var twice := MigratedMode(w, i, r1, MigratedMode(w, i, r0, m));
            MigratedMode(w, i, false, twice) == twice
  {
    hide Drifted, Decimal, MigratedPrompt, Fits;
    PromptSettles(w, i, r0, r1, m.prompt);
    ThresholdOnce(i, m);
  }

  // ---------- whole configurations ----------

  /** From the second start on the file does not change any more. */
  lemma {:induction false} StartsSettle(w: Wording, s: Saved, n: nat)
    requires Fits(w) && n >= 2
    ensures AfterStarts(w, s, n) == AfterStarts(w, s, 2)
  {
    hide MigratedTemplates, MigratedModes, Fits;
    assert AfterStarts(w, s, 1) == Loaded(w, AfterStarts(w, s, 0));
    assert AfterStarts(w, s, 2) == Loaded(w, AfterStarts(w, s, 1));
    if n > 2 {
      StartsSettle(w, s, n - 1);
      TemplatesSettle(w, s.templates);
      ModesSettle(w, s.modes);
    }
  }

  /** One start is enough exactly if it is for the templates and for the modes. */
  lemma OneStartExactly(w: Wording, s: Saved)
    requires Fits(w)
    ensures var all := Extended(w, s.modes);
            AfterStarts(w, s, 2) == AfterStarts(w, s, 1) <==>
              && (s.templates == [] || OnlyLegacy(s.templates)
                  || exists t | t in s.templates :: !IsLegacy(NameOf(MigratedTemplate(w, t))))
              && forall i | 0 <= i < |all| :: SettlesAtOnce(w, i, StartsOldPrompt(all[0].prompt), all[i].prompt)
  {
    hide MigratedTemplates, MigratedModes, Fits, SettlesAtOnce, OnlyLegacy, IsLegacy, MigratedTemplate, StartsOldPrompt;
    assert AfterStarts(w, s, 0) == s;
    assert AfterStarts(w, s, 1) == Loaded(w, s);
    assert AfterStarts(w, s, 2) == Loaded(w, AfterStarts(w, s, 1));
    TemplatesSettleAtOnce(w, s.templates);
    ModesSettleAtOnce(w, s.modes);
  }

  // ---------- two prompts that one start does not settle ----------

  /** A prompt of a headline, a structural rule and one indented line: the line is all that is kept, with its indentation. */
  lemma IndentedPrompt(rules: set<string>, head: string, rule: string, line: string)
    requires StripSettling.IsHead(head) && rule != "" && Trimmed(rule) && BREAK !in rule
    requires rule in rules && !("EXAMPLES:" <= rule) && Kept(rules, line) && BREAK !in line && line != "" && !IsSpace(line[|line| - 1])
    ensures var prompt := head + ([BREAK] + (rule + ([BREAK] + line)));
            && Trim(prompt) == prompt && StripSettling.Headline(prompt) == head
            && StripSettling.KeptText(rules, prompt) == line
  {
    hide LStrip, RStrip, Lines, Head, After, Trim, Kept, Cleaned;
    var body := rule + ([BREAK] + line);
    var prompt := head + ([BREAK] + body);
    TrimMeaning(prompt);
    TrimMeaning(head);
    TrimMeaning(body);
    TrimMeaning(rule);
    HeadOf(head, body);
    LinesAfter(rule, line);
    OneLine(line);
    assert Lines(body) == [rule, line];
    OneKept(rules, rule, line);
    RStripMeaning(line);
  }

  lemma OneKept(rules: set<string>, rule: string, line: string)
    requires Trim(rule) in rules && !("EXAMPLES:" <= Trim(rule)) && Kept(rules, line)
    ensures Cleaned(rules, [rule, line]) == [line]
  {
    hide Trim, Cleaned;
    CleanedNone(rules);
    CleanedStep(rules, [rule, line]);
    CleanedStep(rules, [line]);
    assert [rule, line][1..] == [line] && [line][1..] == [];
  }

  /** The two words that open the old structure. */
  lemma MarksMeaning()
    ensures StripSettling.IsHead("EXAMPLES:")
    ensures Trimmed("RULES (non-negotiable):") && BREAK !in "RULES (non-negotiable):"
    ensures !("EXAMPLES:" <= "RULES (non-negotiable):")
  {
    assert "EXAMPLES:"[0] != "RULES (non-negotiable):"[0];
  }

  lemma SpaceX()
    ensures Trim(" x") == "x" && BREAK !in " x" && !IsSpace(" x"[1]) && IsSpace(" x"[0])
    ensures !("EXAMPLES:" <= "x")
  {
    assert " x"[1..] == "x";
    assert LStrip(IsSpace, "x") == "x";
  }

  lemma ContainsHere(s: string, part: string)
    ensures part <= s ==> Contains(s, part)
  {
  }

  lemma StructuredHere(prompt: string)
    requires "EXAMPLES:" <= prompt
    ensures HasStructure(prompt)
  {
    hide Contains;
    ContainsHere(prompt, "EXAMPLES:");
  }

  /** A prompt of the user's own that loses its indentation only on the second start. */
  lemma OneStartIsNotEnough(w: Wording, m: Mode)
    requires Fits(w) && "RULES (non-negotiable):" in w.rules && "x" !in w.rules
    requires m.prompt == Some("EXAMPLES:" + ([BREAK] + ("RULES (non-negotiable):" + ([BREAK] + " x"))))
    ensures !SettlesAtOnce(w, 3, false, m.prompt)
    ensures var once := MigratedPrompt(w, 3, false, m.prompt);
            MigratedPrompt(w, 3, false, once) != once
  {
    hide *;
    var head, kept := "EXAMPLES:", " x";
    MarksMeaning();
    SpaceX();
    KeptMeaning(w.rules, kept);
    IndentedPrompt(w.rules, head, "RULES (non-negotiable):", kept);
    StructuredHere(m.prompt.value);
    TextStarts(head, kept);
    StructuredHere(StripSettling.Text(head, kept));
    NotAtOnce(w, 3, m.prompt);
    PlaceAtOnce(w, 3, false, m.prompt);
  }

  lemma KeptMeaning(rules: set<string>, line: string)
    ensures Kept(rules, line) <==> !("EXAMPLES:" <= Trim(line)) && Trim(line) !in rules
  {
  }

  lemma TextStarts(head: string, kept: string)
    ensures head <= StripSettling.Text(head, kept)
  {
  }

  lemma NotAtOnce(w: Wording, i: nat, prompt: Option<string>)
    requires i >= 3 && prompt.Some? && HasStructure(prompt.value)
    requires var head, kept := StripSettling.Headline(prompt.value), StripSettling.KeptText(w.rules, prompt.value);
             HasStructure(StripSettling.Text(head, kept)) && kept != "" && IsSpace(kept[0])
    ensures !SettlesAtOnce(w, i, false, prompt)
  {
  }

  /**
    A first prompt that the first start strips into an old spelling prompt: the second start replaces all three
    built-in prompts, and with them what the user made of the second, although the stripper itself has settled.
  */
  lemma SecondStartOverwrites(w: Wording, modes: seq<Mode>, own: string)
    requires Fits(w) && |modes| >= 4 && !HasStructure(own)
    requires modes[0].prompt == Some(" " + (OldStart(false) + ([BREAK] + "EXAMPLES:"))) && modes[1].prompt == Some(own)
    ensures var once := MigratedModes(w, modes);
            && once[1].prompt == Some(own)
            && MigratedModes(w, once)[1].prompt == Some(w.modePrompts[1])
  {
    hide *;
    var start := OldStart(false);
    var prompt := " " + (start + ([BREAK] + "EXAMPLES:"));
    StartsOldHere();
    MarksMeaning();
    SpacedPrompt(start, "EXAMPLES:");
    SpacedStructure(prompt, start);
    StrippedParts(w.rules, prompt);
    NotOldYet(prompt);
    TwoLoads(w, modes, own);
  }

  lemma StartsOldHere()
    ensures StripSettling.IsHead(OldStart(false)) && StartsOld(OldStart(false))
  {
    OldStartPlain(false);
  }

  lemma SpacedPrompt(head: string, body: string)
    requires StripSettling.IsHead(head) && StripSettling.IsHead(body)
    ensures StripSettling.Headline(" " + (head + ([BREAK] + body))) == head
  {
    hide LStrip, RStrip, Head, After;
    var text := head + ([BREAK] + body);
    HeadOf(head, body);
    TrimMeaning(head);
    SpaceDropped(text);
    LStripMeaning(text);
    RStripMeaning(text);
  }

  lemma SpaceDropped(s: string)
    ensures LStrip(IsSpace, " " + s) == LStrip(IsSpace, s)
  {
    assert (" " + s)[1..] == s;
  }

  lemma SpacedStructure(prompt: string, start: string)
    requires prompt == " " + (start + ([BREAK] + "EXAMPLES:"))
    ensures HasStructure(prompt)
  {
    hide Contains;
    assert prompt[|start| + 2..] == "EXAMPLES:";
    ContainsHere("EXAMPLES:", "EXAMPLES:");
    ContainsInSuffix(prompt, |start| + 2, "EXAMPLES:");
  }

  lemma NotOldYet(prompt: string)
    requires prompt != "" && prompt[0] == ' '
    ensures !StartsOld(prompt)
  {
    assert OldStart(false)[0] == 'F' && OldStart(true)[0] == 'Y';
  }

  lemma TwoLoads(w: Wording, modes: seq<Mode>, own: string)
    requires Fits(w) && |modes| >= 4 && !HasStructure(own)
    requires modes[0].prompt.Some? && modes[1].prompt == Some(own)
    requires var p := modes[0].prompt.value; HasStructure(p) && !StartsOld(p) && StartsOld(Stripped(w.rules, p))
    ensures var once := MigratedModes(w, modes);
            && once[1].prompt == Some(own)
            && MigratedModes(w, once)[1].prompt == Some(w.modePrompts[1])
  {
    hide MigratedModes, ResetThreshold, MigratedName, HasStructure, StartsOld, Stripped, StructuralLine;
    ModeAt(w, modes, 0);
    ModeAt(w, modes, 1);
    var once := MigratedModes(w, modes);
    ModeAt(w, once, 1);
    OneMoreLoad(w, 0, false, true, modes[0]);
    OneMoreLoad(w, 1, false, true, modes[1]);
    OneMoreLoad(w, 1, true, true, once[1]);
  }
}
