/**
  Hotkey registration on Windows: parsing a combination, the three-way difference between the wanted and the
  held combinations, and the registration pass against a system that may refuse each step.
*/
module Hotkeys {
  import opened Wrappers

  // ---------- parsing ----------

  const MOD_ALT: bv16 := 0x0001
  const MOD_CONTROL: bv16 := 0x0002
  const MOD_SHIFT: bv16 := 0x0004
  const MOD_WIN: bv16 := 0x0008
  const MOD_NOREPEAT: bv16 := 0x4000

  function Modifier(part: string): Option<bv16> {
    if part == "ctrl" || part == "control" then Some(MOD_CONTROL)
    else if part == "alt" then Some(MOD_ALT)
    else if part == "shift" then Some(MOD_SHIFT)
    else if part == "win" || part == "windows" || part == "super" then Some(MOD_WIN)
    else None
  }

  predicate Known(keys: map<string, nat>, part: string) {
    Modifier(part).Some? || part in keys
  }

  predicate Holds(parts: seq<string>, bit: bv16) {
    exists p | p in parts :: Modifier(p) == Some(bit)
  }

  /** The modifier word of a combination: one bit for every modifier that occurs in it. */
  function Word(alt: bool, control: bool, shift: bool, win: bool): bv16 {
    MOD_NOREPEAT | (if alt then MOD_ALT else 0) | (if control then MOD_CONTROL else 0)
    | (if shift then MOD_SHIFT else 0) | (if win then MOD_WIN else 0)
  }

  function WordOf(parts: seq<string>): bv16 {
    Word(Holds(parts, MOD_ALT), Holds(parts, MOD_CONTROL), Holds(parts, MOD_SHIFT), Holds(parts, MOD_WIN))
  }

  /** The code of the last part that is a key. */
  function LastKey(keys: map<string, nat>, parts: seq<string>): nat {
    if parts == [] then 0
    else
      var last := parts[|parts| - 1];
      if Modifier(last).None? && last in keys then keys[last] else LastKey(keys, parts[..|parts| - 1])
  }

  /** The modifiers and the key of a combination; (0, 0) if any part of it is unknown. */
  method ParseHotkey(keys: map<string, nat>, parts: seq<string>) returns (mods: bv16, vk: nat)
    ensures (forall p | p in parts :: Known(keys, p)) ==> mods == WordOf(parts) && vk == LastKey(keys, parts)
    ensures (exists p | p in parts :: !Known(keys, p)) ==> mods == 0 && vk == 0
  {
    hide *;
    mods, vk := MOD_NOREPEAT, 0;
    NoParts(keys);
    for i := 0 to |parts|
      invariant forall k | 0 <= k < i :: Known(keys, parts[k])
      invariant mods == WordOf(parts[..i]) && vk == LastKey(keys, parts[..i])
    {
      assert parts[..i + 1] == parts[..i] + [parts[i]];
      AddPart(keys, parts[..i], parts[i]);
      if Modifier(parts[i]).Some? {
        mods := mods | Modifier(parts[i]).value;
      } else if parts[i] in keys {
        vk := keys[parts[i]];
      } else {
        assert !Known(keys, parts[i]);
        return 0, 0;
      }
    }
    assert parts[..|parts|] == parts;
  }

  lemma HoldsMore(parts: seq<string>, part: string, bit: bv16)
    ensures Holds(parts + [part], bit) <==> Holds(parts, bit) || Modifier(part) == Some(bit)
  {
    if Modifier(part) == Some(bit) {
      assert (parts + [part])[|parts|] == part;
    }
    forall p | p in parts ensures p in parts + [part] {}
  }

  lemma NoParts(keys: map<string, nat>)
    ensures WordOf([]) == MOD_NOREPEAT && LastKey(keys, []) == 0
  {
  }

  lemma AddPart(keys: map<string, nat>, parts: seq<string>, part: string)
    ensures Known(keys, part) <==> Modifier(part).Some? || part in keys
    ensures LastKey(keys, parts + [part]) == if Modifier(part).None? && part in keys then keys[part] else LastKey(keys, parts)
    ensures WordOf(parts + [part]) == if Modifier(part).Some? then WordOf(parts) | Modifier(part).value else WordOf(parts)
  {
    hide Holds;
    HoldsMore(parts, part, MOD_ALT);
    HoldsMore(parts, part, MOD_CONTROL);
    HoldsMore(parts, part, MOD_SHIFT);
    HoldsMore(parts, part, MOD_WIN);
    assert (parts + [part])[..|parts|] == parts;
  }

  // ---------- sorted lists and the difference ----------

  /** The order of texts by code points. */
  predicate Before(a: string, b: string) {
    b != [] && (a == [] || a[0] < b[0] || (a[0] == b[0] && Before(a[1..], b[1..])))
  }

  /** The members of a set in increasing order. */
  ghost predicate SortedList(list: seq<string>, members: set<string>) {
    && (forall i, j | 0 <= i < j < |list| :: Before(list[i], list[j]))
    && (forall x :: x in list <==> x in members)
  }

  lemma {:induction false} BeforeIsOrder(a: string, b: string, c: string)
    ensures !Before(a, a)
    ensures a != b ==> Before(a, b) || Before(b, a)
    ensures Before(a, b) && Before(b, c) ==> Before(a, c)
  {
    if a != [] {
      BeforeIsOrder(a[1..], if b == [] then [] else b[1..], if c == [] then [] else c[1..]);
      if b != [] && a[0] == b[0] && a[1..] == b[1..] {
        assert a == [a[0]] + a[1..] == [b[0]] + b[1..] == b;
      }
    }
  }

  predicate Least(m: string, members: set<string>) {
    m in members && forall x | x in members :: x == m || Before(m, x)
  }

  lemma {:induction false} LeastExists(members: set<string>)
    requires members != {}
    ensures exists m :: Least(m, members)
  {
    var x :| x in members;
    var rest := members - {x};
    if rest == {} {
      assert members == {x};
      assert Least(x, members);
    } else {
      LeastExists(rest);
      var m :| Least(m, rest);
      BeforeIsOrder(x, m, m);
      forall y | y in rest ensures Before(x, m) && y != m ==> Before(x, y) {
        BeforeIsOrder(x, m, y);
      }
      assert Least(if Before(x, m) then x else m, members);
    }
  }

  method Sorted(members: set<string>) returns (list: seq<string>)
    ensures SortedList(list, members)
  {
    list := [];
    var rest := members;
    while rest != {}
      invariant rest <= members && SortedList(list, members - rest)
      invariant forall x, y | x in list && y in rest :: Before(x, y)
      decreases |rest|
    {
      LeastExists(rest);
      var m :| m in rest && Least(m, rest);
      list := list + [m];
      rest := rest - {m};
    }
  }

  method ComputeDiff(held: set<string>, wanted: set<string>)
    returns (toUnregister: seq<string>, toRegister: seq<string>, kept: seq<string>)
    ensures SortedList(toUnregister, held - wanted)
    ensures SortedList(toRegister, wanted - held)
    ensures SortedList(kept, held * wanted)
  {
    toUnregister := Sorted(held - wanted);
    toRegister := Sorted(wanted - held);
    kept := Sorted(held * wanted);
  }

  lemma SortedDistinct(list: seq<string>, members: set<string>)
    requires SortedList(list, members)
    ensures forall i, j | 0 <= i < j < |list| :: list[i] != list[j]
  {
    forall i, j | 0 <= i < j < |list| ensures list[i] != list[j] {
      BeforeIsOrder(list[i], list[i], list[i]);
    }
  }

  // ---------- one registration pass ----------

  /** What a combination does when it fires. */
  datatype Action = Action(mode: string, strength: string, prompt: string)

  /** The answer of the system to one registration. */
  datatype Answer = Accepted | AlreadyRegistered | Refused

  /** The system during one pass: whether it lets go of a combination, and how it answers a request for one. */
  datatype Os = Os(releases: string -> bool, answers: string -> Answer)

  /** The combinations held and their ids, the ids to give back on shutdown, and what each id runs. */
  datatype Table = Table(registered: map<string, nat>, handles: seq<nat>, callbacks: map<nat, Action>)
  {
    /** What pressing a held combination runs. */
    function Runs(combo: string): Option<Action>
      requires combo in registered
    {
      var id := registered[combo];
      if id in callbacks then Some(callbacks[id]) else None
    }

    predicate Distinct() {
      forall a, b | a in registered && b in registered && a != b :: registered[a] != registered[b]
    }
  }

  const EMPTY: Table := Table(map[], [], map[])

  /** A combination that the pass asks for and gets. */
  predicate Claimed(parses: string -> bool, os: Os, combo: string) {
    parses(combo) && os.answers(combo) == Accepted
  }

  predicate Failed(parses: string -> bool, os: Os, combo: string) {
    parses(combo) && os.answers(combo) != Accepted
  }

  predicate AnyFailed(parses: string -> bool, os: Os, list: seq<string>) {
    exists c | c in list :: Failed(parses, os, c)
  }

  /** Some request failed because another program holds the combination: worth a retry. */
  predicate AnyTaken(parses: string -> bool, os: Os, list: seq<string>) {
    exists c | c in list :: Failed(parses, os, c) && os.answers(c) == AlreadyRegistered
  }

  function Claims(parses: string -> bool, os: Os, list: seq<string>): map<string, nat> {
    if list == [] then map[]
    else
      var n := |list| - 1;
      var rest := Claims(parses, os, list[..n]);
      if Claimed(parses, os, list[n]) then rest[list[n] := 1000 + n] else rest
  }

  function Shown(parses: string -> bool, os: Os, list: seq<string>, wanted: map<string, Action>): map<nat, Action>
    requires forall x | x in list :: x in wanted
  {
    if list == [] then map[]
    else
      var n := |list| - 1;
      var rest := Shown(parses, os, list[..n], wanted);
      if Claimed(parses, os, list[n]) then rest[1000 + n := wanted[list[n]]] else rest
  }

  function Handles(parses: string -> bool, os: Os, list: seq<string>, handles: seq<nat>): seq<nat> {
    if list == [] then handles
    else
      var n := |list| - 1;
      var rest := Handles(parses, os, list[..n], handles);
      if Claimed(parses, os, list[n]) && 1000 + n !in rest then rest + [1000 + n] else rest
  }

  function Released(os: Os, list: seq<string>): set<string> {
    set x | x in list && os.releases(x)
  }

  /** The lists a pass works through. */
  ghost predicate Lists(t: Table, wanted: map<string, Action>, removed: seq<string>, added: seq<string>) {
    && SortedList(removed, t.registered.Keys - wanted.Keys)
    && SortedList(added, wanted.Keys - t.registered.Keys)
  }

  ghost function AfterPass(parses: string -> bool, os: Os, t: Table, wanted: map<string, Action>,
                     removed: seq<string>, added: seq<string>): Table
    requires Lists(t, wanted, removed, added)
  {
    Table((t.registered - Released(os, removed)) + Claims(parses, os, added),
          Handles(parses, os, added, t.handles),
          t.callbacks + Shown(parses, os, added, wanted))
  }

  const MAX_RETRIES: nat := 12

  predicate RetryScheduled(parses: string -> bool, os: Os, added: seq<string>, before: nat) {
    AnyTaken(parses, os, added) && before < MAX_RETRIES
  }

  function NextCount(parses: string -> bool, os: Os, added: seq<string>, before: nat): nat {
    if !AnyFailed(parses, os, added) then 0
    else if RetryScheduled(parses, os, added, before) then before + 1
    else before
  }

  class Registrar {
    var registered: map<string, nat>
    var handles: seq<nat>
    var callbacks: map<nat, Action>
    var retryCount: nat
    var retryDelay: Option<nat>

    function Value(): Table
      reads this
    {
      Table(registered, handles, callbacks)
    }

    constructor ()
      ensures Value() == EMPTY && retryCount == 0 && retryDelay == None
    {
      registered, handles, callbacks, retryCount, retryDelay := map[], [], map[], 0, None;
    }

    /** One pass; retrying tells whether the retry timer started it. Returns the lists it worked through. */
    method Register(parses: string -> bool, os: Os, wanted: map<string, Action>, retrying: bool)
      returns (removed: seq<string>, added: seq<string>)
      modifies this
      ensures Lists(old(Value()), wanted, removed, added)
      ensures Value() == AfterPass(parses, os, old(Value()), wanted, removed, added)
      ensures retryCount == NextCount(parses, os, added, if retrying then old(retryCount) else 0)
      ensures retryDelay == if RetryScheduled(parses, os, added, if retrying then old(retryCount) else 0)
                            then Some(Delay(retryCount)) else None
    {
      hide Claims, Shown, Handles, SortedList, AnyFailed;
      retryDelay := None;
      if !retrying {
        retryCount := 0;
      }
      var kept;
      removed, added, kept := ComputeDiff(registered.Keys, wanted.Keys);
      InList(added, wanted.Keys - registered.Keys);
      InList(removed, registered.Keys - wanted.Keys);
      Unregister(os, removed);
      var failed, taken := Claim(parses, os, wanted, added);
      if !failed {
        NotTaken(parses, os, added);
        retryCount := 0;
      } else if taken && retryCount < MAX_RETRIES {
        retryCount := retryCount + 1;
        retryDelay := Some(Delay(retryCount));
      }
    }

    /** Give every handle back to the system, whatever it answers, and forget all combinations. */
    method ReleaseAll() returns (given: seq<nat>)
      modifies this
      ensures given == old(handles) && Value() == EMPTY && retryDelay == None
    {
      retryDelay := None;
      given := [];
      for i := 0 to |handles|
        invariant given == handles[..i]
        invariant handles == old(handles) && retryDelay == None
      {
        given := given + [handles[i]];
      }
      registered, handles, callbacks := map[], [], map[];
    }

    /** Step 1: let go of the combinations no longer wanted. The ids stay among the handles: the code looks for the text there. */
    method Unregister(os: Os, removed: seq<string>)
      modifies this`registered
      ensures registered == old(registered) - Released(os, removed)
    {
      for i := 0 to |removed|
        invariant registered == old(registered) - Released(os, removed[..i])
      {
        assert removed[..i + 1] == removed[..i] + [removed[i]];
        if removed[i] in registered && os.releases(removed[i]) {
          registered := registered - {removed[i]};
        }
      }
      assert removed[..|removed|] == removed;
    }

    /** Step 2: ask for the combinations newly wanted; the k-th of them gets id 1000 + k. */
    method Claim(parses: string -> bool, os: Os, wanted: map<string, Action>, added: seq<string>)
      returns (failed: bool, taken: bool)
      requires forall x | x in added :: x in wanted
      modifies this`registered, this`handles, this`callbacks
      ensures registered == old(registered) + Claims(parses, os, added)
      ensures handles == Handles(parses, os, added, old(handles))
      ensures callbacks == old(callbacks) + Shown(parses, os, added, wanted)
      ensures failed == AnyFailed(parses, os, added) && taken == AnyTaken(parses, os, added)
    {
      hide *;
      failed, taken := false, false;
      NothingClaimed(parses, os, wanted, handles);
      for i := 0 to |added|
        invariant registered == old(registered) + Claims(parses, os, added[..i])
        invariant handles == Handles(parses, os, added[..i], old(handles))
        invariant callbacks == old(callbacks) + Shown(parses, os, added[..i], wanted)
        invariant failed == AnyFailed(parses, os, added[..i]) && taken == AnyTaken(parses, os, added[..i])
      {
        var combo := added[i];
        ClaimStep(parses, os, wanted, added, i, old(registered), old(handles), old(callbacks));
        FailStep(parses, os, added[..i], combo);
        FailedMeans(parses, os, combo);
        assert added[..i + 1] == added[..i] + [combo];
        if !parses(combo) {
          continue;
        }
        var answer := os.answers(combo);
        if answer == Accepted {
          registered := registered[combo := 1000 + i];
          if 1000 + i !in handles {
            handles := handles + [1000 + i];
          }
          callbacks := callbacks[1000 + i := wanted[combo]];
        } else {
          failed := true;
          taken := taken || answer == AlreadyRegistered;
        }
      }
      assert added[..|added|] == added;
    }
  }

  lemma FailedMeans(parses: string -> bool, os: Os, combo: string)
    ensures Failed(parses, os, combo) <==> parses(combo) && os.answers(combo) != Accepted
  {
  }

  lemma NotTaken(parses: string -> bool, os: Os, list: seq<string>)
    requires !AnyFailed(parses, os, list)
    ensures !AnyTaken(parses, os, list)
  {
  }

  lemma NothingClaimed(parses: string -> bool, os: Os, wanted: map<string, Action>, handles: seq<nat>)
    ensures Claims(parses, os, []) == map[] && Shown(parses, os, [], wanted) == map[]
    ensures Handles(parses, os, [], handles) == handles
    ensures !AnyFailed(parses, os, []) && !AnyTaken(parses, os, [])
  {
  }

  lemma AddLater<K, V>(m: map<K, V>, n: map<K, V>, k: K, v: V)
    ensures m + n[k := v] == (m + n)[k := v]
  {
  }

  /** One more combination: what it adds to the claims, the handles and the actions if it is granted, and nothing if not. */
  lemma ClaimStep(parses: string -> bool, os: Os, wanted: map<string, Action>, added: seq<string>, i: nat,
                  registered: map<string, nat>, handles: seq<nat>, callbacks: map<nat, Action>)
    requires i < |added| && forall x | x in added :: x in wanted
    ensures var ids := registered + Claims(parses, os, added[..i]);
            var hs := Handles(parses, os, added[..i], handles);
            var actions := callbacks + Shown(parses, os, added[..i], wanted);
            var combo, id := added[i], 1000 + i;
            if parses(combo) && os.answers(combo) == Accepted then
              && registered + Claims(parses, os, added[..i + 1]) == ids[combo := id]
              && Handles(parses, os, added[..i + 1], handles) == (if id !in hs then hs + [id] else hs)
              && callbacks + Shown(parses, os, added[..i + 1], wanted) == actions[id := wanted[combo]]
            else
              && Claims(parses, os, added[..i + 1]) == Claims(parses, os, added[..i])
              && Handles(parses, os, added[..i + 1], handles) == hs
              && Shown(parses, os, added[..i + 1], wanted) == Shown(parses, os, added[..i], wanted)
  {
    assert added[..i + 1][..i] == added[..i];
    AddLater(registered, Claims(parses, os, added[..i]), added[i], 1000 + i);
    AddLater(callbacks, Shown(parses, os, added[..i], wanted), 1000 + i, wanted[added[i]]);
  }

  lemma FailStep(parses: string -> bool, os: Os, list: seq<string>, combo: string)
    ensures AnyFailed(parses, os, list + [combo]) <==> AnyFailed(parses, os, list) || Failed(parses, os, combo)
    ensures AnyTaken(parses, os, list + [combo]) <==>
              AnyTaken(parses, os, list) || (Failed(parses, os, combo) && os.answers(combo) == AlreadyRegistered)
  {
    hide Failed;
    InLonger(list, combo);
    if AnyFailed(parses, os, list) {
      var c :| c in list && Failed(parses, os, c);
      assert c in list + [combo];
    }
    if AnyTaken(parses, os, list) {
      var c :| c in list && Failed(parses, os, c) && os.answers(c) == AlreadyRegistered;
      assert c in list + [combo];
    }
  }

  lemma InLonger<T>(list: seq<T>, last: T)
    ensures last in list + [last] && forall x :: x in list + [last] <==> x in list || x == last
  {
    assert (list + [last])[|list|] == last;
  }

  /** Milliseconds until the next retry. */
  function Delay(count: nat): nat {
    if 1500 * count < 4000 then 1500 * count else 4000
  }

  lemma InList(list: seq<string>, members: set<string>)
    requires SortedList(list, members)
    ensures forall x :: x in list <==> x in members
  {
  }
}
