/** What loading the configuration does to the custom templates and the correction modes of an older version. */
module ConfigMigration {
  import opened Wrappers
  import opened Strings
  import opened PromptText

  /** The prompt texts the migration knows, as far as they are not spelled out here. */
  datatype Wording = Wording(
    templatePrompts: seq<string>,  // of the four built-in templates
    oldTemplate: string,           // the retired prompt of the second one
    modePrompts: seq<string>,      // of the four built-in modes
    retired: set<string>,          // two retired prompts of the third mode
    rules: set<string>)            // the structural rule lines, with and without a leading dash

  /** What is true of those texts. */
  predicate Fits(w: Wording) {
    && |w.templatePrompts| == 4 && w.oldTemplate !in w.templatePrompts
    && |w.modePrompts| == 4 && w.modePrompts[2] !in w.retired
    && !StartsOld(w.modePrompts[0])
    && (forall i | 0 <= i < 3 :: !HasStructure(w.modePrompts[i]))
    && (forall p | p in w.retired :: !HasStructure(p) || StructuralLine(w, p))
  }

  /** Below the first line there is a line that the stripper takes out. */
  predicate StructuralLine(w: Wording, prompt: string) {
    After(prompt).Some? && exists l | l in Lines(After(prompt).value) :: !Kept(w.rules, l)
  }

  // ---------- templates ----------

  datatype Template = Template(name: Option<string>, prompt: Option<string>)

  const LEGACY: set<string> := {
    "Email", "Social", "Formal", "Tighten", "Headline", "Executive Email", "Team Chat", "Customer Support",
    "Product Update", "Decision Memo", "Social Post", "Email Polish", "Executive Briefing", "Fix Grammar",
    "Rewrite & Polish", "Polish and Refine", "Fix Grammar Only", "Simplify", "Clean Up Dictation",
    "Professional Tone", "Fix Note Formatting", "Convert to Notes", "Notes Assistant"}

  predicate IsLegacy(name: string) {
    name in LEGACY
  }

  function NameOf(t: Template): string {
    match t.name case None => "" case Some(n) => n
  }

  predicate OnlyLegacy(templates: seq<Template>) {
    templates != [] && forall t | t in templates :: IsLegacy(NameOf(t))
  }

  function Defaults(w: Wording): seq<Template>
    requires |w.templatePrompts| == 4
  {
    [Template(Some("Clean Up Dictation"), Some(w.templatePrompts[0])),
     Template(Some("Professional Tone"), Some(w.templatePrompts[1])),
     Template(Some("Academic & Scholarly"), Some(w.templatePrompts[2])),
     Template(Some("Notes Assistant"), Some(w.templatePrompts[3]))]
  }

  predicate IsEmoji(c: char) {
    var i := c as int;
    || 0x1F600 <= i <= 0x1F64F || 0x1F300 <= i <= 0x1F5FF || 0x1F680 <= i <= 0x1F6FF || 0x1F100 <= i <= 0x1F1FF
    || 0x2460 <= i <= 0x24FF || 0x1F200 <= i <= 0x1F2FF || 0x2600 <= i <= 0x26FF || 0x2700 <= i <= 0x27BF
  }

  function NoEmoji(s: string): string {
    if s == "" then "" else (if IsEmoji(s[0]) then "" else [s[0]]) + NoEmoji(s[1..])
  }

  function CleanName(name: string): string {
    Trim(NoEmoji(name))
  }

  function Renamed(name: string): string {
    if CleanName(name) == "Polish & Refine" then "Polish and Refine" else CleanName(name)
  }

  function MigratedTemplate(w: Wording, t: Template): Template
    requires |w.templatePrompts| == 4
  {
    if t.prompt == Some(w.oldTemplate) then Template(Some("Professional Tone"), Some(w.templatePrompts[1]))
    else Template(match t.name case None => None case Some(n) => Some(Renamed(n)), t.prompt)
  }

  function Each(w: Wording, templates: seq<Template>): (r: seq<Template>)
    requires |w.templatePrompts| == 4
    ensures |r| == |templates|
    ensures forall i | 0 <= i < |r| :: r[i] == MigratedTemplate(w, templates[i])
  {
    if templates == [] then [] else [MigratedTemplate(w, templates[0])] + Each(w, templates[1..])
  }

  function MigratedTemplates(w: Wording, templates: seq<Template>): seq<Template>
    requires |w.templatePrompts| == 4
  {
    if templates == [] || OnlyLegacy(templates) then Defaults(w) else Each(w, templates)
  }

  method MigrateTemplates(w: Wording, saved: seq<Template>) returns (templates: seq<Template>, needsSave: bool)
    requires |w.templatePrompts| == 4
    ensures templates == MigratedTemplates(w, saved)
    ensures !needsSave ==> templates == saved
  {
    hide IsLegacy, CleanName;
    templates, needsSave := saved, false;
    if saved == [] || OnlyLegacy(saved) {
      templates, needsSave := Defaults(w), true;
      return;
    }
    for i := 0 to |saved|
      invariant |templates| == |saved|
      invariant forall k | 0 <= k < i :: templates[k] == MigratedTemplate(w, saved[k])
      invariant forall k | i <= k < |saved| :: templates[k] == saved[k]
      invariant !needsSave ==> templates == saved
    {
      var t := templates[i];
      if t.name.Some? {
        var cleaned := CleanName(t.name.value);
        if cleaned != t.name.value {
          t := t.(name := Some(cleaned));
          needsSave := true;
        }
        if t.name.value == "Polish & Refine" {
          t := t.(name := Some("Polish and Refine"));
          needsSave := true;
        }
      }
      if t.prompt == Some(w.oldTemplate) {
        t := t.(prompt := Some(w.templatePrompts[1]), name := Some("Professional Tone"));
        needsSave := true;
      }
      templates := templates[i := t];
    }
    assert templates == Each(w, saved);
  }

  // ---------- correction modes ----------

  /** A saved threshold: missing, a finite number, or anything else. */
  datatype Threshold = Missing | Number(value: real) | Unusable

  datatype Mode = Mode(name: Option<string>, prompt: Option<string>, threshold: Threshold, builtin: Option<bool>)

  function DefaultThreshold(i: nat): Threshold {
    if i == 0 then Number(0.45) else if i == 1 then Number(0.75) else if i == 2 then Number(0.97) else Number(1.0)
  }

  function DefaultMode(w: Wording, i: nat): Mode
    requires i < 4 && |w.modePrompts| == 4
  {
    Mode(Some(if i == 0 then "Spelling Only" else if i == 1 then "Full Correction"
              else if i == 2 then "Rewrite & Polish" else "Custom Patch"),
         Some(w.modePrompts[i]), DefaultThreshold(i), Some(i < 3))
  }

  /** math.isclose with both tolerances at one in a billion. */
  predicate Near(a: real, b: real) {
    var larger := if Abs(a) < Abs(b) then Abs(b) else Abs(a);
    Abs(a - b) <= 0.000000001 * larger || Abs(a - b) <= 0.000000001
  }

  function Abs(x: real): real {
    if x < 0.0 then -x else x
  }

  predicate Drifted(i: nat, value: real) {
    || (i == 0 && (Near(value, 0.35) || Near(value, 0.4) || Near(value, 0.55) || Near(value, 0.7)))
    || (i == 1 && (Near(value, 0.65) || Near(value, 1.0)))
    || (i == 2 && (Near(value, 0.9) || Near(value, 1.0)))
  }

  /** The threshold is kept exactly if it is a number between 0 and 1 that no older version shipped. */
  function ResetThreshold(i: nat, m: Mode): Mode {
    if i >= 3 || m.builtin == Some(false) then m
    else if m.threshold.Number? && 0.0 <= m.threshold.value <= 1.0 && !Drifted(i, m.threshold.value) then m
    else m.(threshold := DefaultThreshold(i))
  }

  function PromptOf(m: Mode): string {
    match m.prompt case None => "" case Some(p) => p
  }

  /** How the two old spelling prompts begin. */
  function OldStart(second: bool): string {
    if second then "You are a precise " + "spellchecker." else "Fix spelling mistakes. " + "Change nothing else."
  }

  predicate StartsOld(prompt: string) {
    OldStart(false) <= prompt || OldStart(true) <= prompt
  }

  predicate HasStructure(prompt: string) {
    Contains(prompt, "RULES (non-negotiable):") || Contains(prompt, "EXAMPLES:")
  }

  function Reduced(rules: set<string>, prompt: Option<string>): Option<string> {
    if prompt.Some? && HasStructure(prompt.value) then Some(Stripped(rules, prompt.value)) else prompt
  }

  /** The prompt of mode i after one load; refresh tells whether the first mode carried an old spelling prompt. */
  function MigratedPrompt(w: Wording, i: nat, refresh: bool, prompt: Option<string>): Option<string>
    requires |w.modePrompts| == 4
  {
    var known := if i == 2 && prompt.Some? && prompt.value in w.retired then Some(w.modePrompts[2]) else prompt;
    Reduced(w.rules, if refresh && i < 3 then Some(w.modePrompts[i]) else known)
  }

  function MigratedName(i: nat, name: Option<string>): Option<string> {
    if i < 3 || name.Some? then name
    else if i == 3 then Some("Custom Patch")
    else Some("Custom Mode " + Decimal(i - 2))
  }

  function Decimal(n: nat): string {
    if n < 10 then [('0' as int + n) as char] else Decimal(n / 10) + [('0' as int + n % 10) as char]
  }

  function MigratedMode(w: Wording, i: nat, refresh: bool, m: Mode): Mode
    requires |w.modePrompts| == 4
  {
    var r := ResetThreshold(i, m);
    Mode(MigratedName(i, r.name), MigratedPrompt(w, i, refresh, r.prompt), r.threshold, r.builtin)
  }

  /** The saved modes, and the built-in ones for the places that are missing. */
  function Extended(w: Wording, modes: seq<Mode>): (r: seq<Mode>)
    requires |w.modePrompts| == 4
    ensures modes <= r && |r| == if |modes| < 4 then 4 else |modes|
    ensures forall i | |modes| <= i < |r| :: r[i] == DefaultMode(w, i)
    decreases 4 - |modes|
  {
    if |modes| < 4 then Extended(w, modes + [DefaultMode(w, |modes|)]) else modes
  }

  function MigratedModes(w: Wording, modes: seq<Mode>): (r: seq<Mode>)
    requires |w.modePrompts| == 4
    ensures |r| == |Extended(w, modes)|
  {
    var all := Extended(w, modes);
    seq(|all|, i requires 0 <= i < |all| => MigratedMode(w, i, StartsOld(PromptOf(all[0])), all[i]))
  }

  method ResetThresholds(saved: seq<Mode>) returns (modes: seq<Mode>, changed: bool)
    ensures |modes| == |saved| && forall i | 0 <= i < |modes| :: modes[i] == ResetThreshold(i, saved[i])
    ensures !changed ==> modes == saved
  {
    hide Drifted;
    modes, changed := saved, false;
    var i := 0;
    while i < 3 && i < |saved|
      invariant 0 <= i <= 3 && i <= |modes| == |saved|
      invariant forall k | 0 <= k < i :: modes[k] == ResetThreshold(k, saved[k])
      invariant forall k | i <= k < |saved| :: modes[k] == saved[k]
      invariant !changed ==> modes == saved
    {
      var m := modes[i];
      if m.builtin != Some(false) {
        var invalid := !(m.threshold.Number? && 0.0 <= m.threshold.value <= 1.0);
        var drifted := m.threshold.Number? && Drifted(i, m.threshold.value);
        if (invalid || drifted) && m.threshold != DefaultThreshold(i) {
          modes := modes[i := m.(threshold := DefaultThreshold(i))];
          changed := true;
        }
      }
      i := i + 1;
    }
  }

  method FillUp(w: Wording, saved: seq<Mode>, reset: seq<Mode>) returns (modes: seq<Mode>)
    requires |w.modePrompts| == 4
    requires |reset| == |saved| && forall k | 0 <= k < |saved| :: reset[k] == ResetThreshold(k, saved[k])
    ensures var all := Extended(w, saved);
            |modes| == |all| && forall k | 0 <= k < |all| :: modes[k] == ResetThreshold(k, all[k])
    ensures |saved| >= 4 ==> modes == reset
  {
    hide Drifted;
    modes := reset;
    ghost var all := Extended(w, saved);
    while |modes| < 4
      invariant |saved| <= |modes| <= |all|
      invariant forall k | 0 <= k < |modes| :: modes[k] == ResetThreshold(k, all[k])
      invariant |saved| >= 4 ==> modes == reset
      decreases 4 - |modes|
    {
      modes := modes + [DefaultMode(w, |modes|)];
    }
  }

  /** The built-in prompts: the third mode's retired ones, and all three if the first is an old spelling prompt. */
  method RefreshPrompts(w: Wording, ghost all: seq<Mode>, saved: seq<Mode>) returns (modes: seq<Mode>, changed: bool)
    requires |w.modePrompts| == 4 && |saved| == |all| >= 4
    requires forall k | 0 <= k < |all| :: saved[k] == ResetThreshold(k, all[k])
    ensures |modes| == |all|
    ensures forall k | 0 <= k < |all| :: Before(w, k, StartsOld(PromptOf(all[0])), all[k], modes[k])
    ensures !changed ==> modes == saved
  {
    hide Drifted, StartsOld;
    modes, changed := saved, false;
    if modes[2].prompt.Some? && modes[2].prompt.value in w.retired {
      modes := modes[2 := modes[2].(prompt := Some(w.modePrompts[2]))];
      changed := true;
    }
    if StartsOld(PromptOf(modes[0])) {
      modes := modes[0 := modes[0].(prompt := Some(w.modePrompts[0]))];
      modes := modes[1 := modes[1].(prompt := Some(w.modePrompts[1]))];
      modes := modes[2 := modes[2].(prompt := Some(w.modePrompts[2]))];
      changed := true;
    }
  }

  method NameModes(saved: seq<Mode>) returns (modes: seq<Mode>, changed: bool)
    requires |saved| >= 3
    ensures |modes| == |saved|
    ensures forall k | 0 <= k < |modes| :: modes[k] == saved[k].(name := MigratedName(k, saved[k].name))
    ensures !changed ==> modes == saved
  {
    hide Decimal;
    modes, changed := saved, false;
    for i := 3 to |modes|
      invariant |modes| == |saved|
      invariant forall k | 0 <= k < i :: modes[k] == saved[k].(name := MigratedName(k, saved[k].name))
      invariant forall k | i <= k < |modes| :: modes[k] == saved[k]
      invariant !changed ==> modes == saved
    {
      if modes[i].name.None? {
        modes := modes[i := modes[i].(name := MigratedName(i, None))];
        changed := true;
      }
    }
  }

  method ReducePrompts(w: Wording, saved: seq<Mode>) returns (modes: seq<Mode>, changed: bool)
    ensures |modes| == |saved|
    ensures forall k | 0 <= k < |modes| :: modes[k] == saved[k].(prompt := Reduced(w.rules, saved[k].prompt))
    ensures !changed ==> modes == saved
  {
    hide HasStructure, Stripped;
    modes, changed := saved, false;
    for i := 0 to |modes|
      invariant |modes| == |saved|
      invariant forall k | 0 <= k < i :: modes[k] == saved[k].(prompt := Reduced(w.rules, saved[k].prompt))
      invariant forall k | i <= k < |modes| :: modes[k] == saved[k]
      invariant !changed ==> modes == saved
    {
      if modes[i].prompt.Some? && HasStructure(modes[i].prompt.value) {
        var stripped := StripStructuralRules(w.rules, modes[i].prompt.value);
        modes := modes[i := modes[i].(prompt := Some(stripped))];
        changed := true;
      }
    }
  }

  method MigrateModes(w: Wording, saved: seq<Mode>) returns (modes: seq<Mode>, needsSave: bool)
    requires |w.modePrompts| == 4
    ensures modes == MigratedModes(w, saved)
    ensures !needsSave ==> modes == saved
  {
    hide ResetThreshold, MigratedName, Reduced, StartsOld;
    var reset, changed := ResetThresholds(saved);
    var filled := FillUp(w, saved, reset);
    ghost var all := Extended(w, saved);
    var refreshed, changed2 := RefreshPrompts(w, all, filled);
    var named, changed3 := NameModes(refreshed);
    var changed4;
    modes, changed4 := ReducePrompts(w, named);
    needsSave := changed || |saved| < 4 || changed2 || changed3 || changed4;
    forall k | 0 <= k < |all| ensures modes[k] == MigratedMode(w, k, StartsOld(PromptOf(all[0])), all[k]) {
      KeepsName(k, all[k]);
    }
    assert modes == MigratedModes(w, saved);
  }

  lemma KeepsName(i: nat, m: Mode)
    ensures ResetThreshold(i, m).name == m.name && ResetThreshold(i, m).prompt == m.prompt
  {
  }

  /** A mode in the middle of the load: threshold and built-in prompts done, name and stripping not. */
  predicate Before(w: Wording, i: nat, refresh: bool, m: Mode, now: Mode)
    requires |w.modePrompts| == 4
  {
    var known := if i == 2 && m.prompt.Some? && m.prompt.value in w.retired then Some(w.modePrompts[2]) else m.prompt;
    now == ResetThreshold(i, m).(prompt := if refresh && i < 3 then Some(w.modePrompts[i]) else known)
  }
}
