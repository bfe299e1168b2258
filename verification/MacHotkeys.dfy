/**
  Shortcuts on macOS: the normal form of a written shortcut, the event key it stands for, and the table of callbacks
  that a registration installs whole or not at all.
*/
module MacHotkeys {
  import opened Wrappers
  import opened Strings

  datatype Modifier = Command | Control | Alternate | Shift

  function Alias(piece: string): Option<Modifier> {
    if piece == "cmd" || piece == "command" || piece == "meta" || piece == "win" then Some(Command)
    else if piece == "ctrl" || piece == "control" then Some(Control)
    else if piece == "alt" || piece == "opt" || piece == "option" then Some(Alternate)
    else if piece == "shift" then Some(Shift)
    else None
  }

  function ModifierName(m: Modifier): string {
    match m case Command => "command" case Control => "control" case Alternate => "option" case Shift => "shift"
  }

  /** The names of these modifiers in the fixed order. */
  function Ordered(ms: set<Modifier>): seq<string> {
    (if Command in ms then [ModifierName(Command)] else []) + (if Control in ms then [ModifierName(Control)] else [])
    + (if Alternate in ms then [ModifierName(Alternate)] else []) + (if Shift in ms then [ModifierName(Shift)] else [])
  }

  function ModifiersIn(pieces: seq<string>): set<Modifier> {
    set p | p in pieces && Alias(p).Some? :: Alias(p).value
  }

  /** The parts between the plus signs, trimmed and in lower case; empty ones are passed over. */
  function Pieces(lower: string -> string, parts: seq<string>): seq<string> {
    if parts == [] then []
    else (if Trim(parts[0]) == "" then [] else [lower(Trim(parts[0]))]) + Pieces(lower, parts[1..])
  }

  datatype ShortcutError = EndsInModifier

  /** The normal form of a shortcut; no text at all if there is no key. */
  function Normalized(lower: string -> string, shortcut: string): Result<string, ShortcutError> {
    var pieces := Pieces(lower, Split(shortcut, "+"));
    if pieces == [] then Ok("")
    else
      var n := |pieces| - 1;
      if Alias(pieces[n]).Some? then Err(EndsInModifier)
      else Ok(Join(Ordered(ModifiersIn(pieces[..n])) + [pieces[n]], "+"))
  }

  /** A part that splitting, trimming and lowering leave alone. */
  predicate Plain(lower: string -> string, piece: string) {
    piece != "" && Trimmed(piece) && '+' !in piece && lower(piece) == piece
  }

  /** What lower-casing text does. */
  ghost predicate Lowers(lower: string -> string) {
    && (forall x | x != "" && Trimmed(x) && '+' !in x :: Plain(lower, lower(x)))
    && (forall m: Modifier :: Plain(lower, ModifierName(m)))
  }

  // ---------- splitting and joining ----------

  lemma {:induction false} ContainsChar(s: string, c: char)
    ensures Contains(s, [c]) <==> c in s
  {
    if s != "" {
      ContainsChar(s[1..], c);
      assert s == [s[0]] + s[1..];
      assert [c] <= s <==> s[0] == c;
    }
  }

  lemma {:induction false} PiecesClean(s: string, c: char)
    ensures forall p | p in Split(s, [c]) :: c !in p
    decreases |s|
  {
    hide Contains, Find;
    ContainsChar(s, c);
    var i := Find(s, [c]);
    if i.Some? {
      FindIsFirst(s, [c]);
      ContainsChar(s[..i.value], c);
      PiecesClean(s[i.value + 1..], c);
    }
  }

  lemma {:induction false} FindAfterClean(first: string, rest: string, c: char)
    requires c !in first
    ensures Find(first + ([c] + rest), [c]) == Some(|first|)
  {
    var s := first + ([c] + rest);
    if first == "" {
      assert [c] <= s;
    } else {
      assert s[1..] == first[1..] + ([c] + rest);
      FindAfterClean(first[1..], rest, c);
      assert s[0] == first[0] != c;
    }
  }

  lemma {:induction false} SplitOfJoin(pieces: seq<string>, c: char)
    requires pieces != [] && forall p | p in pieces :: c !in p
    ensures Split(Join(pieces, [c]), [c]) == pieces
  {
    hide Contains, Find;
    if |pieces| == 1 {
      ContainsChar(pieces[0], c);
    } else {
      var rest := Join(pieces[1..], [c]);
      SplitOfJoin(pieces[1..], c);
      FindAfterClean(pieces[0], rest, c);
      var s := pieces[0] + ([c] + rest);
      assert s[..|pieces[0]|] == pieces[0] && s[|pieces[0]| + 1..] == rest;
    }
  }

  lemma {:induction false} PiecesPlain(lower: string -> string, parts: seq<string>)
    requires Lowers(lower) && forall p | p in parts :: '+' !in p
    ensures forall p | p in Pieces(lower, parts) :: Plain(lower, p)
  {
    hide Plain;
    if parts != [] {
      PiecesPlain(lower, parts[1..]);
      TrimMeaning(parts[0]);
      LStripIsSuffix(IsSpace, parts[0]);
      RStripIsPrefix(IsSpace, LStrip(IsSpace, parts[0]));
      forall ch | ch in Trim(parts[0]) ensures ch in parts[0] {
        assert ch in LStrip(IsSpace, parts[0]);
      }
    }
  }

  lemma {:induction false} PiecesOfPlain(lower: string -> string, parts: seq<string>)
    requires forall p | p in parts :: Plain(lower, p)
    ensures Pieces(lower, parts) == parts
  {
    if parts != [] {
      PiecesOfPlain(lower, parts[1..]);
      assert Plain(lower, parts[0]);
      TrimMeaning(parts[0]);
    }
  }

  // ---------- the normal form ----------

  /** The modifiers and the key that a shortcut is read as. */
  function Reading(lower: string -> string, shortcut: string): (set<Modifier>, string)
    requires Pieces(lower, Split(shortcut, "+")) != []
  {
    var pieces := Pieces(lower, Split(shortcut, "+"));
    (ModifiersIn(pieces[..|pieces| - 1]), pieces[|pieces| - 1])
  }

  predicate IsShortcut(lower: string -> string, shortcut: string) {
    var pieces := Pieces(lower, Split(shortcut, "+"));
    pieces != [] && Alias(pieces[|pieces| - 1]).None?
  }

  lemma OrderedMeaning(ms: set<Modifier>)
    ensures ModifiersIn(Ordered(ms)) == ms
    ensures forall p | p in Ordered(ms) :: exists m :: m in ms && p == ModifierName(m)
  {
    hide Alias, ModifierName;
    var o := Ordered(ms);
    forall m: Modifier ensures Alias(ModifierName(m)) == Some(m) {
      AliasOfName(m);
    }
    forall p | p in o ensures exists m :: m in ms && p == ModifierName(m) {
      assert p in [ModifierName(Command), ModifierName(Control), ModifierName(Alternate), ModifierName(Shift)];
    }
    forall m: Modifier ensures m in ms ==> ModifierName(m) in o {
      match m case Command => case Control => case Alternate => case Shift =>
    }
    assert forall m | m in ms :: Alias(ModifierName(m)).value in ModifiersIn(o);
  }

  lemma AliasOfName(m: Modifier)
    ensures Alias(ModifierName(m)) == Some(m)
  {
  }

  /** The parts of the normal form are the modifiers in order and the key. */
  lemma PartsOfNormal(lower: string -> string, shortcut: string)
    requires Lowers(lower) && IsShortcut(lower, shortcut)
    ensures var (ms, key) := Reading(lower, shortcut);
            var n := Normalized(lower, shortcut);
            && n.Ok? && Split(n.value, "+") == Ordered(ms) + [key]
            && Pieces(lower, Split(n.value, "+")) == Ordered(ms) + [key]
  {
    hide Split, Join, Alias, Pieces, Plain, Ordered;
    var (ms, key) := Reading(lower, shortcut);
    PiecesClean(shortcut, '+');
    PiecesPlain(lower, Split(shortcut, "+"));
    OrderedMeaning(ms);
    var parts := Ordered(ms) + [key];
    forall p | p in parts ensures Plain(lower, p) && '+' !in p {
      assert Plain(lower, p);
      PlainHasNoPlus(lower, p);
    }
    SplitOfJoin(parts, '+');
    PiecesOfPlain(lower, parts);
  }

  lemma PlainHasNoPlus(lower: string -> string, p: string)
    requires Plain(lower, p)
    ensures '+' !in p
  {
  }

  /** A normal form is its own normal form, and it is read as the same modifiers and key. */
  lemma NormalizedOnce(lower: string -> string, shortcut: string)
    requires Lowers(lower) && IsShortcut(lower, shortcut)
    ensures var n := Normalized(lower, shortcut).value;
            IsShortcut(lower, n) && Reading(lower, n) == Reading(lower, shortcut) && Normalized(lower, n) == Ok(n)
  {
    hide Split, Join, Alias, Pieces, Ordered, Lowers;
    PartsOfNormal(lower, shortcut);
    var (ms, key) := Reading(lower, shortcut);
    OrderedMeaning(ms);
    assert (Ordered(ms) + [key])[..|Ordered(ms)|] == Ordered(ms);
  }

  /** Two shortcuts have the same normal form exactly if they are read as the same modifiers and key. */
  lemma SameNormalExactly(lower: string -> string, a: string, b: string)
    requires Lowers(lower) && IsShortcut(lower, a) && IsShortcut(lower, b)
    ensures Normalized(lower, a) == Normalized(lower, b) <==> Reading(lower, a) == Reading(lower, b)
  {
    hide Split, Join, Alias, Pieces, Ordered, Lowers, IsShortcut;
    NormalizedOnce(lower, a);
    NormalizedOnce(lower, b);
    NormalIs(lower, a);
    NormalIs(lower, b);
  }

  lemma NormalIs(lower: string -> string, shortcut: string)
    requires IsShortcut(lower, shortcut)
    ensures var (ms, key) := Reading(lower, shortcut);
            Normalized(lower, shortcut) == Ok(Join(Ordered(ms) + [key], "+"))
  {
  }

  // ---------- event keys ----------

  function Mask(m: Modifier): bv32 {
    match m case Command => 0x100000 case Control => 0x40000 case Alternate => 0x80000 case Shift => 0x20000
  }

  const ALL_MASKS: bv32 := 0x1E0000

  function Or(a: bv32, b: bv32): bv32 {
    a | b
  }

  function Word(command: bool, control: bool, alternate: bool, shift: bool): bv32 {
    (if command then 0x100000 else 0) | (if control then 0x40000 else 0)
    | (if alternate then 0x80000 else 0) | (if shift then 0x20000 else 0)
  }

  function Flags(ms: set<Modifier>): bv32 {
    Word(Command in ms, Control in ms, Alternate in ms, Shift in ms)
  }

  /** The modifiers an event was typed with. */
  function HeldIn(flags: bv32): set<Modifier> {
    (if flags & Mask(Command) != 0 then {Command} else {}) + (if flags & Mask(Control) != 0 then {Control} else {})
    + (if flags & Mask(Alternate) != 0 then {Alternate} else {}) + (if flags & Mask(Shift) != 0 then {Shift} else {})
  }

  lemma MaskedFlags(flags: bv32)
    ensures flags & ALL_MASKS == Flags(HeldIn(flags))
  {
    hide *;
    MaskedBits(flags);
    HeldMeaning(flags);
    FlagsAre(HeldIn(flags));
  }

  lemma HeldMeaning(flags: bv32)
    ensures var held := HeldIn(flags);
            && (Command in held <==> flags & 0x100000 != 0) && (Control in held <==> flags & 0x40000 != 0)
            && (Alternate in held <==> flags & 0x80000 != 0) && (Shift in held <==> flags & 0x20000 != 0)
  {
  }

  lemma MaskedBits(flags: bv32)
    ensures flags & ALL_MASKS
         == Word(flags & 0x100000 != 0, flags & 0x40000 != 0, flags & 0x80000 != 0, flags & 0x20000 != 0)
  {
  }

  lemma FlagsAre(ms: set<Modifier>)
    ensures Flags(ms) == Word(Command in ms, Control in ms, Alternate in ms, Shift in ms)
  {
  }

  /** The bits do not overlap: different modifiers, different flags. */
  lemma FlagsExactly(a: set<Modifier>, b: set<Modifier>)
    ensures Flags(a) == Flags(b) <==> a == b
  {
    FlagBits(Command in a, Control in a, Alternate in a, Shift in a);
    FlagBits(Command in b, Control in b, Alternate in b, Shift in b);
    if Flags(a) == Flags(b) {
      forall m: Modifier ensures m in a <==> m in b {
        match m case Command => case Control => case Alternate => case Shift =>
      }
    }
  }

  lemma FlagBits(command: bool, control: bool, alternate: bool, shift: bool)
    ensures var f := Word(command, control, alternate, shift);
            && (f & 0x100000 != 0 <==> command) && (f & 0x40000 != 0 <==> control)
            && (f & 0x80000 != 0 <==> alternate) && (f & 0x20000 != 0 <==> shift)
  {
  }

  /** A registered shortcut: its modifiers and its key, as its normal form holds them. */
  datatype Spec = Spec(modifiers: set<Modifier>, key: string)

  type EventKey = (nat, bv32)

  function KeyOf(codes: map<string, nat>, s: Spec): EventKey
    requires s.key in codes
  {
    (codes[s.key], Flags(s.modifiers))
  }

  /** A modifier written out under its own name. */
  function Named(part: string): Option<Modifier> {
    if part == "command" then Some(Command) else if part == "control" then Some(Control)
    else if part == "option" then Some(Alternate) else if part == "shift" then Some(Shift) else None
  }

  function MaskOf(part: string): bv32 {
    match Named(part) case None => 0 case Some(m) => Mask(m)
  }

  predicate Has(parts: seq<string>, m: Modifier) {
    exists p | p in parts :: Named(p) == Some(m)
  }

  function NamedIn(parts: seq<string>): set<Modifier> {
    set m: Modifier | Has(parts, m)
  }

  /** The event key, computed from the parts of the normal form. */
  method ShortcutKey(codes: map<string, nat>, parts: seq<string>) returns (key: Option<EventKey>)
    requires parts != []
    ensures var n := |parts| - 1;
            key == if parts[n] !in codes then None
                   else Some((codes[parts[n]], Flags(NamedIn(parts[..n]))))
  {
    hide *;
    var n := |parts| - 1;
    if parts[n] !in codes {
      return None;
    }
    var flags: bv32 := 0;
    NoFlags();
    for i := 0 to n
      invariant flags == Flags(NamedIn(parts[..i]))
    {
      assert parts[..i + 1] == parts[..i] + [parts[i]];
      OneMoreFlag(parts[..i], parts[i]);
      flags := Or(flags, MaskOf(parts[i]));
    }
    return Some((codes[parts[n]], flags));
  }

  lemma NoFlags()
    ensures Flags(NamedIn([])) == 0
  {
  }

  lemma OneMoreFlag(parts: seq<string>, part: string)
    ensures Flags(NamedIn(parts + [part])) == Or(Flags(NamedIn(parts)), MaskOf(part))
  {
    hide Flags, Mask, Named, NamedIn, Or;
    OneMoreName(parts, part);
    if Named(part).Some? {
      FlagsPlus(NamedIn(parts), Named(part).value);
    } else {
      assert NamedIn(parts) + {} == NamedIn(parts);
      OrNothing(Flags(NamedIn(parts)));
    }
  }

  lemma OrNothing(flags: bv32)
    ensures Or(flags, 0) == flags
  {
  }

  lemma OneMoreName(parts: seq<string>, part: string)
    ensures NamedIn(parts + [part]) == NamedIn(parts) + if Named(part).Some? then {Named(part).value} else {}
  {
    hide Named, Has;
    HasMore(parts, part);
  }

  lemma FlagsPlus(ms: set<Modifier>, m: Modifier)
    ensures Flags(ms + {m}) == Or(Flags(ms), Mask(m))
  {
    hide *;
    FlagsAre(ms);
    FlagsAre(ms + {m});
    WordOr(Command in ms, Control in ms, Alternate in ms, Shift in ms);
    match m case Command => case Control => case Alternate => case Shift =>
  }

  lemma HasMore(parts: seq<string>, part: string)
    ensures forall m :: Has(parts + [part], m) <==> Has(parts, m) || Named(part) == Some(m)
  {
    hide Named;
    assert (parts + [part])[|parts|] == part;
    assert forall p | p in parts :: p in parts + [part];
  }

  lemma WordOr(command: bool, control: bool, alternate: bool, shift: bool)
    ensures var w := Word(command, control, alternate, shift);
            && Or(w, Mask(Command)) == Word(true, control, alternate, shift)
            && Or(w, Mask(Control)) == Word(command, true, alternate, shift)
            && Or(w, Mask(Alternate)) == Word(command, control, true, shift)
            && Or(w, Mask(Shift)) == Word(command, control, alternate, true)
  {
  }

  /** The names in the normal form give back the modifiers. */
  lemma NamesOfOrdered(ms: set<Modifier>)
    ensures NamedIn(Ordered(ms)) == ms
  {
    forall m: Modifier ensures Has(Ordered(ms), m) <==> m in ms {
      NamedByName(m);
      if m in ms {
        assert ModifierName(m) in Ordered(ms);
      }
      OrderedNames(ms);
    }
  }

  lemma NamedByName(m: Modifier)
    ensures Named(ModifierName(m)) == Some(m)
  {
  }

  lemma OrderedNames(ms: set<Modifier>)
    ensures forall p | p in Ordered(ms) :: Named(p).Some? && Named(p).value in ms
  {
  }

  /** From the text a user writes to the event key: the modifiers that were read and the code of the key that was read. */
  lemma KeyOfNormal(lower: string -> string, shortcut: string)
    requires Lowers(lower) && IsShortcut(lower, shortcut)
    ensures var parts := Split(Normalized(lower, shortcut).value, "+");
            var (ms, key) := Reading(lower, shortcut);
            parts[|parts| - 1] == key && NamedIn(parts[..|parts| - 1]) == ms
  {
    hide Split, Join, Alias, Pieces, Ordered, Lowers, NamedIn, Normalized;
    PartsOfNormal(lower, shortcut);
    var (ms, key) := Reading(lower, shortcut);
    NamesOfOrdered(ms);
    assert (Ordered(ms) + [key])[..|Ordered(ms)|] == Ordered(ms);
  }

  /** Two registered shortcuts answer to the same events exactly if they hold the same modifiers and the same key code. */
  lemma CollideExactly(codes: map<string, nat>, a: Spec, b: Spec)
    requires a.key in codes && b.key in codes
    ensures KeyOf(codes, a) == KeyOf(codes, b) <==> codes[a.key] == codes[b.key] && a.modifiers == b.modifiers
  {
    FlagsExactly(a.modifiers, b.modifiers);
  }

  // ---------- the table ----------

  datatype Code = Registered | PermissionMissing | Unsupported | Conflict | TapRefused

  predicate AllKnown(codes: map<string, nat>, specs: seq<Spec>) {
    forall s | s in specs :: s.key in codes
  }

  predicate NoConflict(codes: map<string, nat>, specs: seq<Spec>)
    requires AllKnown(codes, specs)
  {
    forall i, j | 0 <= i < j < |specs| :: KeyOf(codes, specs[i]) != KeyOf(codes, specs[j])
  }

  /** One callback for every shortcut and none besides. */
  ghost predicate IsTable(codes: map<string, nat>, specs: seq<Spec>, callbacks: map<EventKey, Spec>)
    requires AllKnown(codes, specs)
  {
    && (forall s | s in specs :: KeyOf(codes, s) in callbacks && callbacks[KeyOf(codes, s)] == s)
    && (forall k | k in callbacks :: callbacks[k] in specs && KeyOf(codes, callbacks[k]) == k)
  }

  class HotkeyTable {
    const codes: map<string, nat>
    var callbacks: map<EventKey, Spec>

    constructor (codes: map<string, nat>)
      ensures this.codes == codes && callbacks == map[]
    {
      this.codes, callbacks := codes, map[];
    }

    /** Install all the shortcuts, or none: a refusal leaves the old table, and a refused event tap an empty one. */
    method Register(specs: seq<Spec>, permitted: bool, tap: bool) returns (code: Code)
      modifies this
      ensures code == Registered <==>
                specs == [] || (permitted && tap && AllKnown(codes, specs) && NoConflict(codes, specs))
      ensures code == Registered ==> AllKnown(codes, specs) && IsTable(codes, specs, callbacks)
      ensures code == TapRefused ==> callbacks == map[]
      ensures code == PermissionMissing || code == Unsupported || code == Conflict ==> callbacks == old(callbacks)
      ensures code == PermissionMissing <==> specs != [] && !permitted
    {
      if specs == [] {
        callbacks := map[];
        return Registered;
      }
      if !permitted {
        return PermissionMissing;
      }
      var mappings: map<EventKey, Spec> := map[];
      for i := 0 to |specs|
        invariant AllKnown(codes, specs[..i]) && NoConflict(codes, specs[..i])
        invariant IsTable(codes, specs[..i], mappings)
        invariant callbacks == old(callbacks)
      {
        var s := specs[i];
        assert specs[..i + 1] == specs[..i] + [s];
        if s.key !in codes {
          assert s in specs;
          return Unsupported;
        }
        var key := KeyOf(codes, s);
        if key in mappings {
          Clash(codes, specs, i, mappings[key]);
          return Conflict;
        }
        AddToTable(codes, specs[..i], s, mappings);
        mappings := mappings[key := s];
      }
      assert specs[..|specs|] == specs;
      if !tap {
        callbacks := map[];
        return TapRefused;
      }
      callbacks := mappings;
      return Registered;
    }

    /** A key press runs the shortcut with its key code and exactly its modifiers, whatever other flags are set. */
    method Dispatch(specs: seq<Spec>, keycode: nat, flags: bv32, repeated: bool) returns (ran: Option<Spec>)
      requires AllKnown(codes, specs) && IsTable(codes, specs, callbacks)
      ensures repeated ==> ran == None
      ensures !repeated ==>
                forall s :: ran == Some(s) <==> s in specs && codes[s.key] == keycode && s.modifiers == HeldIn(flags)
    {
      if repeated {
        return None;
      }
      var key := (keycode, flags & ALL_MASKS);
      ran := if key in callbacks then Some(callbacks[key]) else None;
      MaskedFlags(flags);
      forall s: Spec ensures ran == Some(s) <==> s in specs && codes[s.key] == keycode && s.modifiers == HeldIn(flags) {
        FlagsExactly(s.modifiers, HeldIn(flags));
      }
    }
  }

  lemma Clash(codes: map<string, nat>, specs: seq<Spec>, i: nat, other: Spec)
    requires i < |specs| && other in specs[..i] && other.key in codes && specs[i].key in codes
    requires KeyOf(codes, other) == KeyOf(codes, specs[i])
    ensures AllKnown(codes, specs) ==> !NoConflict(codes, specs)
  {
    var k :| 0 <= k < i && specs[k] == other;
  }

  lemma AddToTable(codes: map<string, nat>, specs: seq<Spec>, s: Spec, callbacks: map<EventKey, Spec>)
    requires AllKnown(codes, specs) && NoConflict(codes, specs) && IsTable(codes, specs, callbacks)
    requires s.key in codes && KeyOf(codes, s) !in callbacks
    ensures AllKnown(codes, specs + [s]) && NoConflict(codes, specs + [s])
    ensures IsTable(codes, specs + [s], callbacks[KeyOf(codes, s) := s])
  {
    hide KeyOf;
    forall i | 0 <= i < |specs| ensures KeyOf(codes, specs[i]) != KeyOf(codes, s) {
      assert specs[i] in specs;
    }
  }
}
