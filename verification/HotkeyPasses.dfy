/** What registration passes do to the held combinations, their ids and their actions, over single passes and whole runs. */
module HotkeyPasses {
  import opened Wrappers
  import opened Hotkeys

  ghost predicate NoDuplicates(list: seq<string>) {
    forall i, j | 0 <= i < j < |list| :: list[i] != list[j]
  }

  lemma {:induction false} ClaimsMeaning(parses: string -> bool, os: Os, list: seq<string>)
    requires NoDuplicates(list)
    ensures forall x :: x in Claims(parses, os, list) <==> x in list && Claimed(parses, os, x)
    ensures forall i | 0 <= i < |list| && Claimed(parses, os, list[i]) :: Claims(parses, os, list)[list[i]] == 1000 + i
  {
    if list != [] {
      var n := |list| - 1;
      assert list == list[..n] + [list[n]];
      ClaimsMeaning(parses, os, list[..n]);
      forall i | 0 <= i < |list| && Claimed(parses, os, list[i])
        ensures Claims(parses, os, list)[list[i]] == 1000 + i
      {
        if i < n {
          assert list[..n][i] == list[i];
        }
      }
    }
  }

  lemma {:induction false} ShownMeaning(parses: string -> bool, os: Os, list: seq<string>, wanted: map<string, Action>)
    requires forall x | x in list :: x in wanted
    ensures forall id :: id in Shown(parses, os, list, wanted) <==>
                           1000 <= id < 1000 + |list| && Claimed(parses, os, list[id - 1000])
    ensures forall id | id in Shown(parses, os, list, wanted) ::
              1000 <= id < 1000 + |list| && Shown(parses, os, list, wanted)[id] == wanted[list[id - 1000]]
  {
    if list != [] {
      var n := |list| - 1;
      ShownMeaning(parses, os, list[..n], wanted);
    }
  }

  lemma {:induction false} HandlesMeaning(parses: string -> bool, os: Os, list: seq<string>, handles: seq<nat>)
    ensures handles <= Handles(parses, os, list, handles)
    ensures forall id :: id in Handles(parses, os, list, handles) <==>
              id in handles || (1000 <= id < 1000 + |list| && Claimed(parses, os, list[id - 1000]))
  {
    if list != [] {
      var n := |list| - 1;
      HandlesMeaning(parses, os, list[..n], handles);
    }
  }

  // ---------- one pass ----------

  /** The combinations held after a pass: the ones kept, the ones newly granted, and the ones the system would not let go. */
  lemma HeldAfterPass(parses: string -> bool, os: Os, t: Table, wanted: map<string, Action>,
                      removed: seq<string>, added: seq<string>)
    requires Lists(t, wanted, removed, added)
    ensures AfterPass(parses, os, t, wanted, removed, added).registered.Keys
         == (t.registered.Keys * wanted.Keys)
            + (set c | c in wanted.Keys - t.registered.Keys && Claimed(parses, os, c))
            + (set c | c in t.registered.Keys - wanted.Keys && !os.releases(c))
  {
    SortedDistinct(added, wanted.Keys - t.registered.Keys);
    ClaimsMeaning(parses, os, added);
  }

  /** A combination that stays wanted, or that the system keeps, is not touched: it has the id it had. */
  lemma KeptUntouched(parses: string -> bool, os: Os, t: Table, wanted: map<string, Action>,
                      removed: seq<string>, added: seq<string>, combo: string)
    requires Lists(t, wanted, removed, added)
    requires combo in t.registered && (combo in wanted || !os.releases(combo))
    ensures var after := AfterPass(parses, os, t, wanted, removed, added);
            combo in after.registered && after.registered[combo] == t.registered[combo]
  {
    SortedDistinct(added, wanted.Keys - t.registered.Keys);
    ClaimsMeaning(parses, os, added);
  }

  /** An id that the pass hands out. */
  predicate Taken(parses: string -> bool, os: Os, added: seq<string>, id: nat) {
    1000 <= id < 1000 + |added| && Claimed(parses, os, added[id - 1000])
  }

  /** The combinations that a pass leaves alone although they were there before. */
  predicate Stays(os: Os, t: Table, wanted: map<string, Action>, combo: string) {
    combo in t.registered && (combo in wanted || !os.releases(combo))
  }

  /** Where the ids come from, one combination at a time. */
  lemma IdAfter(parses: string -> bool, os: Os, t: Table, wanted: map<string, Action>,
                removed: seq<string>, added: seq<string>, combo: string)
    requires Lists(t, wanted, removed, added)
    ensures var after := AfterPass(parses, os, t, wanted, removed, added);
            && (combo in after.registered <==>
                  Stays(os, t, wanted, combo) || (combo in wanted && combo !in t.registered && Claimed(parses, os, combo)))
            && (combo in after.registered ==>
                  var id := after.registered[combo];
                  if combo in t.registered then id == t.registered[combo]
                  else Taken(parses, os, added, id) && added[id - 1000] == combo)
  {
    SortedDistinct(added, wanted.Keys - t.registered.Keys);
    ClaimsMeaning(parses, os, added);
    if combo in AfterPass(parses, os, t, wanted, removed, added).registered && combo !in t.registered {
      var i :| 0 <= i < |added| && added[i] == combo;
    }
  }

  /** The other way round: an id handed out goes to the combination at its place. */
  lemma TakenBy(parses: string -> bool, os: Os, t: Table, wanted: map<string, Action>,
                removed: seq<string>, added: seq<string>, id: nat)
    requires Lists(t, wanted, removed, added) && Taken(parses, os, added, id)
    ensures var after, combo := AfterPass(parses, os, t, wanted, removed, added), added[id - 1000];
            && combo in wanted && combo !in t.registered
            && combo in after.registered && after.registered[combo] == id
  {
    SortedDistinct(added, wanted.Keys - t.registered.Keys);
    ClaimsMeaning(parses, os, added);
    assert added[id - 1000] in added;
  }

  /** What an id runs afterwards. */
  lemma ActionAfter(parses: string -> bool, os: Os, t: Table, wanted: map<string, Action>,
                    removed: seq<string>, added: seq<string>, id: nat)
    requires Lists(t, wanted, removed, added)
    ensures var after := AfterPass(parses, os, t, wanted, removed, added).callbacks;
            if Taken(parses, os, added, id) then
              added[id - 1000] in wanted && id in after && after[id] == wanted[added[id - 1000]]
            else
              (id in after <==> id in t.callbacks) && (id in after ==> after[id] == t.callbacks[id])
  {
    ShownMeaning(parses, os, added, wanted);
    if Taken(parses, os, added, id) {
      assert added[id - 1000] in added;
    }
  }

  /**
    A newly granted combination runs its own action. One that stays runs what it ran before, unless its id is handed
    out again: then it runs the action of the combination that got its id.
  */
  lemma RunsAfterPass(parses: string -> bool, os: Os, t: Table, wanted: map<string, Action>,
                      removed: seq<string>, added: seq<string>, combo: string)
    requires Lists(t, wanted, removed, added)
    requires combo in AfterPass(parses, os, t, wanted, removed, added).registered
    ensures var after := AfterPass(parses, os, t, wanted, removed, added);
            if combo !in t.registered then
              combo in wanted && after.Runs(combo) == Some(wanted[combo])
            else
              && Stays(os, t, wanted, combo)
              && var id := t.registered[combo];
                 if Taken(parses, os, added, id) then
                   added[id - 1000] in wanted && after.Runs(combo) == Some(wanted[added[id - 1000]])
                 else after.Runs(combo) == t.Runs(combo)
  {
    hide AfterPass, Lists, SortedList, Claimed;
    IdAfter(parses, os, t, wanted, removed, added, combo);
    ActionAfter(parses, os, t, wanted, removed, added, AfterPass(parses, os, t, wanted, removed, added).registered[combo]);
  }

  /**
    Ids restart at 1000 on every pass, so they stay distinct exactly if no combination that stays holds one of the
    ids handed out.
  */
  lemma DistinctExactly(parses: string -> bool, os: Os, t: Table, wanted: map<string, Action>,
                        removed: seq<string>, added: seq<string>)
    requires Lists(t, wanted, removed, added) && t.Distinct()
    ensures AfterPass(parses, os, t, wanted, removed, added).Distinct() <==>
              forall c | Stays(os, t, wanted, c) :: !Taken(parses, os, added, t.registered[c])
  {
    hide AfterPass, Lists, SortedList, Claimed, Taken;
    var after := AfterPass(parses, os, t, wanted, removed, added);
    if after.Distinct() {
      forall c | Stays(os, t, wanted, c) ensures !Taken(parses, os, added, t.registered[c]) {
        IdAfter(parses, os, t, wanted, removed, added, c);
        if Taken(parses, os, added, t.registered[c]) {
          TakenBy(parses, os, t, wanted, removed, added, t.registered[c]);
        }
      }
    } else {
      var a, b :| a in after.registered && b in after.registered && a != b && after.registered[a] == after.registered[b];
      IdAfter(parses, os, t, wanted, removed, added, a);
      IdAfter(parses, os, t, wanted, removed, added, b);
    }
  }

  /** From an empty table every id is distinct and every combination runs its own action. */
  lemma FromEmpty(parses: string -> bool, os: Os, handles: seq<nat>, callbacks: map<nat, Action>,
                  wanted: map<string, Action>, removed: seq<string>, added: seq<string>)
    requires Lists(Table(map[], handles, callbacks), wanted, removed, added)
    ensures var after := AfterPass(parses, os, Table(map[], handles, callbacks), wanted, removed, added);
            && after.Distinct()
            && forall c | c in after.registered :: c in wanted && after.Runs(c) == Some(wanted[c])
  {
    hide AfterPass, Lists, SortedList, Claimed, Taken;
    var t := Table(map[], handles, callbacks);
    DistinctExactly(parses, os, t, wanted, removed, added);
    var after := AfterPass(parses, os, t, wanted, removed, added);
    forall c | c in after.registered ensures c in wanted && after.Runs(c) == Some(wanted[c]) {
      RunsAfterPass(parses, os, t, wanted, removed, added, c);
    }
  }

  /** Two passes are enough for two combinations to share an id: f9, then f9 with f8 added. Pressing f9 then runs f8. */
  lemma AddingOneShadows(os: Os, first: Action, second: Action)
    requires os.answers("f9") == Accepted && os.answers("f8") == Accepted
    ensures var all := (s: string) => true;
            var wanted1, wanted2 := map["f9" := first], map["f9" := first, "f8" := second];
            && Lists(EMPTY, wanted1, [], ["f9"])
            && var one := AfterPass(all, os, EMPTY, wanted1, [], ["f9"]);
               && Lists(one, wanted2, [], ["f8"])
               && var two := AfterPass(all, os, one, wanted2, [], ["f8"]);
                  && "f9" in two.registered && !two.Distinct() && two.Runs("f9") == Some(second)
  {
    hide AfterPass, SortedList;
    var all := (s: string) => true;
    var wanted1, wanted2 := map["f9" := first], map["f9" := first, "f8" := second];
    OneSorted("f9");
    OneSorted("f8");
    NoneSorted();
    assert wanted1.Keys - EMPTY.registered.Keys == {"f9"} && EMPTY.registered.Keys - wanted1.Keys == {};
    var one := AfterPass(all, os, EMPTY, wanted1, [], ["f9"]);
    HeldAfterPass(all, os, EMPTY, wanted1, [], ["f9"]);
    IdAfter(all, os, EMPTY, wanted1, [], ["f9"], "f9");
    assert one.registered.Keys == {"f9"} && one.registered["f9"] == 1000;
    assert wanted2.Keys - one.registered.Keys == {"f8"} && one.registered.Keys - wanted2.Keys == {};
    assert Taken(all, os, ["f8"], 1000) && Stays(os, one, wanted2, "f9");
    IdAfter(all, os, one, wanted2, [], ["f8"], "f9");
    TakenBy(all, os, one, wanted2, [], ["f8"], 1000);
    RunsAfterPass(all, os, one, wanted2, [], ["f8"], "f9");
  }

  lemma OneSorted(x: string)
    ensures SortedList([x], {x})
  {
  }

  lemma NoneSorted()
    ensures SortedList([], {})
  {
  }

  // ---------- runs of passes ----------

  /** One step of the life of the table: a pass over some wanted combinations, or giving everything back. */
  datatype Step =
    | Pass(os: Os, wanted: map<string, Action>, removed: seq<string>, added: seq<string>)
    | ReleaseAll

  ghost predicate Next(parses: string -> bool, t: Table, step: Step, after: Table) {
    match step
    case Pass(os, wanted, removed, added) =>
      Lists(t, wanted, removed, added) && after == AfterPass(parses, os, t, wanted, removed, added)
    case ReleaseAll => after == EMPTY
  }

  ghost predicate Run(parses: string -> bool, steps: seq<Step>, tables: seq<Table>) {
    && |tables| == |steps| + 1 && tables[0] == EMPTY
    && forall i | 0 <= i < |steps| :: Next(parses, tables[i], steps[i], tables[i + 1])
  }

  /** Only combinations that parse are ever held, and every id in use is among the handles that are given back. */
  ghost predicate Sound(parses: string -> bool, t: Table) {
    && (forall c | c in t.registered :: parses(c))
    && (forall c | c in t.registered :: t.registered[c] in t.handles && t.registered[c] in t.callbacks)
  }

  lemma PassKeepsSound(parses: string -> bool, os: Os, t: Table, wanted: map<string, Action>,
                       removed: seq<string>, added: seq<string>)
    requires Lists(t, wanted, removed, added) && Sound(parses, t)
    ensures Sound(parses, AfterPass(parses, os, t, wanted, removed, added))
  {
    hide Lists, SortedList;
    var after := AfterPass(parses, os, t, wanted, removed, added);
    HandlesMeaning(parses, os, added, t.handles);
    forall c | c in after.registered
      ensures parses(c) && after.registered[c] in after.handles && after.registered[c] in after.callbacks
    {
      IdAfter(parses, os, t, wanted, removed, added, c);
      ActionAfter(parses, os, t, wanted, removed, added, after.registered[c]);
    }
  }

  lemma {:induction false} RunSound(parses: string -> bool, steps: seq<Step>, tables: seq<Table>, n: nat)
    requires Run(parses, steps, tables) && n <= |steps|
    ensures Sound(parses, tables[n])
  {
    if n > 0 {
      RunSound(parses, steps, tables, n - 1);
      assert Next(parses, tables[n - 1], steps[n - 1], tables[n]);
      match steps[n - 1]
      case Pass(os, wanted, removed, added) => PassKeepsSound(parses, os, tables[n - 1], wanted, removed, added);
      case ReleaseAll =>
    }
  }

  ghost predicate Willing(os: Os) {
    forall c :: os.releases(c) && os.answers(c) == Accepted
  }

  /**
    Whatever the system refused before: a pass in which it grants everything leaves exactly the wanted combinations
    that parse, and a further pass over the same wanted ones changes nothing, however the system answers it.
  */
  lemma RunSettles(parses: string -> bool, steps: seq<Step>, tables: seq<Table>, n: nat, os: Os,
                   removed: seq<string>, added: seq<string>)
    requires Run(parses, steps, tables) && n < |steps| && steps[n].Pass? && Willing(steps[n].os)
    requires Lists(tables[n + 1], steps[n].wanted, removed, added)
    ensures tables[n + 1].registered.Keys == set c | c in steps[n].wanted.Keys && parses(c)
    ensures AfterPass(parses, os, tables[n + 1], steps[n].wanted, removed, added) == tables[n + 1]
  {
    hide AfterPass, SortedList;
    RunSound(parses, steps, tables, n);
    assert Next(parses, tables[n], steps[n], tables[n + 1]);
    HeldAfterPass(parses, steps[n].os, tables[n], steps[n].wanted, steps[n].removed, steps[n].added);
    InList(removed, tables[n + 1].registered.Keys - steps[n].wanted.Keys);
    InList(added, steps[n].wanted.Keys - tables[n + 1].registered.Keys);
    assert tables[n + 1].registered.Keys - steps[n].wanted.Keys == {};
    EmptyOrInhabited(removed);
    NoChange(parses, os, tables[n + 1], steps[n].wanted, added);
  }

  lemma EmptyOrInhabited<T>(list: seq<T>)
    ensures list == [] || exists x :: x in list
  {
    if list != [] {
      assert list[0] in list;
    }
  }

  lemma NoChange(parses: string -> bool, os: Os, t: Table, wanted: map<string, Action>, added: seq<string>)
    requires Lists(t, wanted, [], added) && forall x | x in added :: !parses(x)
    ensures AfterPass(parses, os, t, wanted, [], added) == t
  {
    NothingToClaim(parses, os, wanted, added, t.handles);
    assert t.registered - Released(os, []) + map[] == t.registered;
    assert t.callbacks + map[] == t.callbacks;
  }

  lemma {:induction false} NothingToClaim(parses: string -> bool, os: Os, wanted: map<string, Action>,
                                          list: seq<string>, handles: seq<nat>)
    requires forall x | x in list :: x in wanted && !parses(x)
    ensures Claims(parses, os, list) == map[] && Shown(parses, os, list, wanted) == map[]
    ensures Handles(parses, os, list, handles) == handles
  {
    if list != [] {
      NothingToClaim(parses, os, wanted, list[..|list| - 1], handles);
    }
  }

  // ---------- retries ----------

  /**
    A chain of passes in which each was started by the retry the one before scheduled: at most twelve of them
    schedule one, whatever the system answers.
  */
  lemma {:induction false} RetriesEnd(parses: string -> bool, worlds: seq<Os>, lists: seq<seq<string>>, count: nat)
    requires |worlds| == |lists|
    requires forall i | 0 <= i < |worlds| ::
               RetryScheduled(parses, worlds[i], lists[i], CountAfter(parses, worlds[..i], lists[..i], count))
    ensures |worlds| == 0 || |worlds| + count <= MAX_RETRIES
    ensures CountAfter(parses, worlds, lists, count) == count + |worlds|
  {
    hide AnyTaken, AnyFailed;
    if worlds != [] {
      var n := |worlds| - 1;
      forall i | 0 <= i < n
        ensures RetryScheduled(parses, worlds[..n][i], lists[..n][i],
                               CountAfter(parses, worlds[..n][..i], lists[..n][..i], count))
      {
        assert worlds[..n][..i] == worlds[..i] && lists[..n][..i] == lists[..i];
      }
      RetriesEnd(parses, worlds[..n], lists[..n], count);
      assert RetryScheduled(parses, worlds[n], lists[n], CountAfter(parses, worlds[..n], lists[..n], count));
      TakenMeansFailed(parses, worlds[n], lists[n]);
    }
  }

  lemma TakenMeansFailed(parses: string -> bool, os: Os, list: seq<string>)
    requires AnyTaken(parses, os, list)
    ensures AnyFailed(parses, os, list)
  {
  }

  /** The retry count after these retry passes. */
  function CountAfter(parses: string -> bool, worlds: seq<Os>, lists: seq<seq<string>>, count: nat): nat
    requires |worlds| == |lists|
  {
    if worlds == [] then count
    else
      var n := |worlds| - 1;
      NextCount(parses, worlds[n], lists[n], CountAfter(parses, worlds[..n], lists[..n], count))
  }
}
