/**
  The local correction history: a file of lines that every operation reads whole and rewrites whole, and the bounded
  log that it stands for. Also the undo token that is used at most once.
*/
module History {
  import opened Wrappers

  datatype Entry = Entry(id: string, mode: string, strength: string, original: string, corrected: string,
                         app: string, time: string, undone: bool)

  /** A line of the file: empty, not JSON, JSON without an id, or an entry. */
  datatype Line = Blank | Corrupt | Foreign | Stored(entry: Entry)

  function Entries(lines: seq<Line>): seq<Entry> {
    if lines == [] then []
    else
      var n := |lines| - 1;
      Entries(lines[..n]) + if lines[n].Stored? then [lines[n].entry] else []
  }

  function AsLines(log: seq<Entry>): (lines: seq<Line>)
    ensures |lines| == |log| && forall i | 0 <= i < |log| :: lines[i] == Stored(log[i])
  {
    seq(|log|, i requires 0 <= i < |log| => Stored(log[i]))
  }

  /** The last n of a list. */
  function Last<T>(s: seq<T>, n: nat): seq<T> {
    if |s| <= n then s else s[|s| - n..]
  }

  // ---------- the operations on the log ----------

  /** The place of the first entry with an id, or the end. */
  function IndexOf(log: seq<Entry>, id: string): (i: nat)
    ensures i <= |log| && (i < |log| ==> log[i].id == id)
    ensures forall k | 0 <= k < i :: log[k].id != id
  {
    if log == [] || log[0].id == id then 0 else 1 + IndexOf(log[1..], id)
  }

  function Marked(log: seq<Entry>, id: string): seq<Entry> {
    var i := IndexOf(log, id);
    if i == |log| then log else log[i := log[i].(undone := true)]
  }

  function Without(log: seq<Entry>, id: string): seq<Entry> {
    if log == [] then []
    else
      var n := |log| - 1;
      Without(log[..n], id) + if log[n].id == id then [] else [log[n]]
  }

  predicate HasId(log: seq<Entry>, id: string) {
    exists e | e in log :: e.id == id
  }

  class CorrectionHistory {
    var file: Option<seq<Line>>
    const limit: nat
    const enabled: bool
    var consent: bool

    /** The entries a whole and undisturbed read gives. */
    function Log(): seq<Entry>
      reads this
    {
      match file case None => [] case Some(lines) => Entries(lines)
    }

    /** The entries a read gives that breaks off with an error after some lines; the code goes on with what it has. */
    function Seen(failsAfter: Option<nat>): seq<Entry>
      reads this
    {
      match file case None => [] case Some(lines) => Entries(Readable(lines, failsAfter))
    }

    constructor (file: Option<seq<Line>>, limit: int, enabled: bool, consent: bool)
      ensures this.file == file && this.limit == (if limit < 1 then 1 else limit)
      ensures this.enabled == enabled && this.consent == consent
    {
      this.file, this.limit, this.enabled, this.consent := file, if limit < 1 then 1 else limit, enabled, consent;
    }

    method Load(failsAfter: Option<nat>) returns (entries: seq<Entry>)
      ensures entries == Seen(failsAfter)
    {
      entries := [];
      if file.None? {
        return;
      }
      var lines := Readable(file.value, failsAfter);
      for i := 0 to |lines|
        invariant entries == Entries(lines[..i])
      {
        assert lines[..i + 1][..i] == lines[..i];
        if lines[i].Stored? {
          entries := entries + [lines[i].entry];
        }
      }
      assert lines[..|lines|] == lines;
    }

    /** Replace the file whole; an error leaves the old one and is only logged. */
    method Save(entries: seq<Entry>, works: bool)
      modifies this`file
      ensures works ==> Log() == entries
      ensures !works ==> file == old(file)
    {
      if works {
        file := Some(AsLines(entries));
        EntriesOfLines(entries);
      }
    }

    /** The new entry goes to the end and the oldest ones beyond the limit go. The id comes back even if nothing was saved. */
    method Add(e: Entry, failsAfter: Option<nat>, works: bool) returns (id: Option<string>)
      requires !e.undone
      modifies this`file
      ensures var accepted := enabled && consent && e.original != "" && e.original != e.corrected;
              && id == (if accepted then Some(e.id) else None)
              && Log() == (if accepted && works then Last(old(Seen(failsAfter)) + [e], limit) else old(Log()))
    {
      if !enabled || !consent || e.original == "" || e.original == e.corrected {
        return None;
      }
      hide Entries;
      var entries := Load(failsAfter);
      entries := entries + [e];
      entries := if |entries| <= limit then entries else entries[|entries| - limit..];
      Save(entries, works);
      return Some(e.id);
    }

    method MarkUndone(id: string, failsAfter: Option<nat>, works: bool) returns (found: bool)
      modifies this`file
      ensures found == HasId(old(Seen(failsAfter)), id)
      ensures Log() == if found && works then Marked(old(Seen(failsAfter)), id) else old(Log())
    {
      hide Entries, IndexOf;
      var entries := Load(failsAfter);
      for i := 0 to |entries|
        invariant forall k | 0 <= k < i :: entries[k].id != id
      {
        if entries[i].id == id {
          assert IndexOf(entries, id) == i && entries[i] in entries;
          Save(entries[i := entries[i].(undone := true)], works);
          return true;
        }
      }
      assert IndexOf(entries, id) == |entries|;
      return false;
    }

    method Remove(id: string, failsAfter: Option<nat>, works: bool) returns (found: bool)
      modifies this`file
      ensures found == HasId(old(Seen(failsAfter)), id)
      ensures Log() == if found && works then Without(old(Seen(failsAfter)), id) else old(Log())
    {
      hide Entries;
      var entries := Load(failsAfter);
      var rest: seq<Entry> := [];
      for i := 0 to |entries|
        invariant rest == Without(entries[..i], id)
      {
        assert entries[..i + 1][..i] == entries[..i];
        if entries[i].id != id {
          rest := rest + [entries[i]];
        }
      }
      assert entries[..|entries|] == entries;
      WithoutLength(entries, id);
      if |rest| == |entries| {
        return false;
      }
      Save(rest, works);
      return true;
    }

    method Clear(works: bool)
      modifies this`file
      ensures Log() == if works then [] else old(Log())
    {
      Save([], works);
    }
  }

  function Readable(lines: seq<Line>, failsAfter: Option<nat>): seq<Line> {
    if failsAfter.Some? && failsAfter.value < |lines| then lines[..failsAfter.value] else lines
  }

  lemma {:induction false} EntriesOfLines(log: seq<Entry>)
    ensures Entries(AsLines(log)) == log
  {
    if log != [] {
      var n := |log| - 1;
      EntriesOfLines(log[..n]);
      assert AsLines(log)[..n] == AsLines(log[..n]);
      assert log == log[..n] + [log[n]];
    }
  }

  lemma {:induction false} WithoutLength(log: seq<Entry>, id: string)
    ensures |Without(log, id)| <= |log|
    ensures |Without(log, id)| == |log| <==> !HasId(log, id)
    ensures !HasId(log, id) ==> Without(log, id) == log
  {
    if log != [] {
      var n := |log| - 1;
      WithoutLength(log[..n], id);
      assert log == log[..n] + [log[n]];
      assert HasId(log, id) <==> HasId(log[..n], id) || log[n].id == id;
    }
  }

  // ---------- lines that are not entries ----------

  /** A line that is not an entry changes nothing, wherever it stands. */
  lemma {:induction false} CorruptLinesPassOver(before: seq<Line>, line: Line, after: seq<Line>)
    requires !line.Stored?
    ensures Entries(before + [line] + after) == Entries(before + after)
  {
    if after == [] {
      assert (before + [line] + after)[..|before|] == before && before + after == before;
    } else {
      var n := |after| - 1;
      CorruptLinesPassOver(before, line, after[..n]);
      assert (before + [line] + after)[..|before| + 1 + n] == before + [line] + after[..n];
      assert (before + after)[..|before| + n] == before + after[..n];
    }
  }

  /**
    A read that breaks off sees a beginning of the log, and all of it exactly if no entry stands behind the break.
    What it does not see, the next save of an addition throws away.
  */
  lemma {:induction false} BrokenRead(lines: seq<Line>, k: nat)
    requires k <= |lines|
    ensures Entries(lines[..k]) <= Entries(lines)
    ensures Entries(lines[..k]) == Entries(lines) <==> forall i | k <= i < |lines| :: !lines[i].Stored?
  {
    if k < |lines| {
      var n := |lines| - 1;
      BrokenRead(lines[..n], k);
      assert lines[..n][..k] == lines[..k];
    } else {
      assert lines[..k] == lines;
    }
  }

  // ---------- runs ----------

  datatype Op = Add(entry: Entry) | Mark(id: string) | Remove(id: string) | Clear

  /** The log after an operation that was accepted and saved. */
  function Apply(limit: nat, log: seq<Entry>, op: Op): seq<Entry> {
    match op
    case Add(e) => Last(log + [e], limit)
    case Mark(id) => Marked(log, id)
    case Remove(id) => Without(log, id)
    case Clear => []
  }

  function ApplyAll(limit: nat, log: seq<Entry>, ops: seq<Op>): seq<Entry> {
    if ops == [] then log else Apply(limit, ApplyAll(limit, log, ops[..|ops| - 1]), ops[|ops| - 1])
  }

  function Added(ops: seq<Op>): seq<Entry> {
    if ops == [] then []
    else
      var n := |ops| - 1;
      Added(ops[..n]) + if ops[n].Add? then [ops[n].entry] else []
  }

  predicate DistinctIds(log: seq<Entry>) {
    forall i, j | 0 <= i < j < |log| :: log[i].id != log[j].id
  }

  /** some is what is left of all after leaving some out, and perhaps marking some. */
  predicate ThinnedFrom(some: seq<Entry>, all: seq<Entry>) {
    if some == [] then true
    else if all == [] then false
    else
      var s, a := some[|some| - 1], all[|all| - 1];
      || ((s == a || s == a.(undone := true)) && ThinnedFrom(some[..|some| - 1], all[..|all| - 1]))
      || ThinnedFrom(some, all[..|all| - 1])
  }

  lemma NoneThins(all: seq<Entry>)
    ensures ThinnedFrom([], all)
  {
  }

  lemma {:induction false} ThinnedSelf(log: seq<Entry>)
    ensures ThinnedFrom(log, log)
  {
    if log != [] {
      ThinnedSelf(log[..|log| - 1]);
    }
  }

  lemma {:induction false} ThinnedTrans(a: seq<Entry>, b: seq<Entry>, c: seq<Entry>)
    requires ThinnedFrom(a, b) && ThinnedFrom(b, c)
    ensures ThinnedFrom(a, c)
    decreases |b| + |c|
  {
    if a != [] {
      var b', c' := b[..|b| - 1], c[..|c| - 1];
      var y, z := b[|b| - 1], c[|c| - 1];
      if (y == z || y == z.(undone := true)) && ThinnedFrom(b', c') {
        if ThinnedFrom(a, b') {
          ThinnedTrans(a, b', c');
        } else {
          ThinnedTrans(a[..|a| - 1], b', c');
        }
      } else {
        ThinnedTrans(a, b, c');
      }
    }
  }

  lemma {:induction false} LastThins(log: seq<Entry>, n: nat)
    ensures ThinnedFrom(Last(log, n), log)
  {
    if |log| <= n {
      ThinnedSelf(log);
    } else if n > 0 {
      assert Last(log, n)[..n - 1] == Last(log[..|log| - 1], n - 1);
      LastThins(log[..|log| - 1], n - 1);
    }
  }

  lemma {:induction false} WithoutThins(log: seq<Entry>, id: string)
    ensures ThinnedFrom(Without(log, id), log)
  {
    if log != [] {
      var n := |log| - 1;
      WithoutThins(log[..n], id);
      if log[n].id == id {
        assert Without(log, id) == Without(log[..n], id);
      } else {
        assert Without(log, id)[..|Without(log, id)| - 1] == Without(log[..n], id);
      }
    }
  }

  lemma MarkedThins(log: seq<Entry>, id: string)
    ensures ThinnedFrom(Marked(log, id), log)
  {
    hide ThinnedFrom, IndexOf;
    if IndexOf(log, id) == |log| {
      ThinnedSelf(log);
    } else {
      OneMarkThins(log, IndexOf(log, id));
    }
  }

  lemma {:induction false} OneMarkThins(log: seq<Entry>, i: nat)
    requires i < |log|
    ensures ThinnedFrom(log[i := log[i].(undone := true)], log)
  {
    var n := |log| - 1;
    var marked := log[i := log[i].(undone := true)];
    if i == n {
      assert marked[..n] == log[..n];
      ThinnedSelf(log[..n]);
    } else {
      assert marked[..n] == log[..n][i := log[i].(undone := true)];
      OneMarkThins(log[..n], i);
    }
  }

  lemma {:induction false} ThinnedAppend(some: seq<Entry>, all: seq<Entry>, e: Entry)
    requires ThinnedFrom(some, all)
    ensures ThinnedFrom(some + [e], all + [e])
  {
    assert (some + [e])[..|some|] == some && (all + [e])[..|all|] == all;
  }

  /**
    Order is kept over any run: what is stored is what was there and what was added, in that order, with some left
    out and some marked; nothing else appears and nothing is moved.
  */
  lemma {:induction false} RunKeepsOrder(limit: nat, log: seq<Entry>, ops: seq<Op>)
    ensures ThinnedFrom(ApplyAll(limit, log, ops), log + Added(ops))
  {
    hide ThinnedFrom, Marked, Without, Last;
    if ops == [] {
      assert log + [] == log;
      ThinnedSelf(log);
    } else {
      var n := |ops| - 1;
      var before, all := ApplyAll(limit, log, ops[..n]), log + Added(ops[..n]);
      RunKeepsOrder(limit, log, ops[..n]);
      match ops[n]
      case Add(e) =>
        LastThins(before + [e], limit);
        ThinnedAppend(before, all, e);
        assert log + Added(ops) == all + [e];
        ThinnedTrans(Last(before + [e], limit), before + [e], all + [e]);
      case Mark(id) =>
        MarkedThins(before, id);
        ThinnedTrans(Marked(before, id), before, all);
        assert log + Added(ops) == all;
      case Remove(id) =>
        WithoutThins(before, id);
        ThinnedTrans(Without(before, id), before, all);
        assert log + Added(ops) == all;
      case Clear =>
        NoneThins(log + Added(ops));
    }
  }

  lemma IdsOfThinned(some: seq<Entry>, all: seq<Entry>, s: Entry, a: Entry)
    requires (forall e | e in some :: HasId(all, e.id)) && s.id == a.id
    ensures forall e | e in some + [s] :: HasId(all + [a], e.id)
  {
    forall e | e in some + [s] ensures HasId(all + [a], e.id) {
      var x := if e in some then (var x :| x in all && x.id == e.id; x) else a;
      assert x in all + [a];
    }
  }

  lemma DistinctAppend(some: seq<Entry>, all: seq<Entry>, s: Entry, a: Entry)
    requires DistinctIds(all + [a]) && DistinctIds(some) && s.id == a.id
    requires forall e | e in some :: HasId(all, e.id)
    ensures DistinctIds(some + [s])
  {
    forall i | 0 <= i < |some| ensures some[i].id != s.id {
      assert some[i] in some;
      var e :| e in all && e.id == some[i].id;
      var k :| 0 <= k < |all| && all[k] == e;
      assert (all + [a])[k].id != (all + [a])[|all|].id;
    }
  }

  lemma {:induction false} ThinnedDistinct(some: seq<Entry>, all: seq<Entry>)
    requires ThinnedFrom(some, all) && DistinctIds(all)
    ensures DistinctIds(some)
    ensures forall e | e in some :: HasId(all, e.id)
  {
    hide DistinctIds, HasId;
    if some == [] {
      NoneDistinct();
    } else {
      var s', a' := some[..|some| - 1], all[..|all| - 1];
      var s, a := some[|some| - 1], all[|all| - 1];
      assert some == s' + [s] && all == a' + [a];
      DistinctPrefix(a', a);
      if (s == a || s == a.(undone := true)) && ThinnedFrom(s', a') {
        ThinnedDistinct(s', a');
        IdsOfThinned(s', a', s, a);
        DistinctAppend(s', a', s, a);
      } else {
        ThinnedDistinct(some, a');
        MoreIds(some, a', a);
      }
    }
  }

  lemma NoneDistinct()
    ensures DistinctIds([])
  {
  }

  lemma DistinctPrefix(log: seq<Entry>, e: Entry)
    requires DistinctIds(log + [e])
    ensures DistinctIds(log)
  {
    forall i, j | 0 <= i < j < |log| ensures log[i].id != log[j].id {
      assert (log + [e])[i].id != (log + [e])[j].id;
    }
  }

  lemma MoreIds(some: seq<Entry>, all: seq<Entry>, a: Entry)
    requires forall e | e in some :: HasId(all, e.id)
    ensures forall e | e in some :: HasId(all + [a], e.id)
  {
    forall e | e in some ensures HasId(all + [a], e.id) {
      var x :| x in all && x.id == e.id;
      assert x in all + [a];
    }
  }

  /** With fresh ids the stored ids are distinct at the end of any run. */
  lemma RunKeepsDistinct(limit: nat, log: seq<Entry>, ops: seq<Op>)
    requires DistinctIds(log + Added(ops))
    ensures DistinctIds(ApplyAll(limit, log, ops))
  {
    RunKeepsOrder(limit, log, ops);
    ThinnedDistinct(ApplyAll(limit, log, ops), log + Added(ops));
  }

  lemma LastOfLast(log: seq<Entry>, e: Entry, n: nat)
    ensures Last(Last(log, n) + [e], n) == Last(log + [e], n)
  {
  }

  /** A run that only adds, and adds at least once, keeps exactly the last entries up to the limit. */
  lemma {:induction false} AddsKeepTheLast(limit: nat, log: seq<Entry>, ops: seq<Op>)
    requires ops != [] && forall op | op in ops :: op.Add?
    ensures ApplyAll(limit, log, ops) == Last(log + Added(ops), limit)
  {
    hide Last;
    var n := |ops| - 1;
    var all := log + Added(ops[..n]);
    assert ops[n] in ops;
    assert log + Added(ops) == all + [ops[n].entry];
    LastOfLast(all, ops[n].entry, limit);
    if n == 0 {
      assert all == log;
    } else {
      AddsKeepTheLast(limit, log, ops[..n]);
    }
  }

  /** From the first addition on there are never more entries than the limit. */
  lemma {:induction false} BoundedAfterAdd(limit: nat, log: seq<Entry>, ops: seq<Op>)
    requires exists op | op in ops :: op.Add?
    ensures |ApplyAll(limit, log, ops)| <= limit
  {
    var n := |ops| - 1;
    assert ops == ops[..n] + [ops[n]];
    if !ops[n].Add? {
      BoundedAfterAdd(limit, log, ops[..n]);
      var before := ApplyAll(limit, log, ops[..n]);
      match ops[n]
      case Mark(id) =>
      case Remove(id) => WithoutLength(before, id);
      case Clear =>
    }
  }

  // ---------- the undo token ----------

  class UndoToken {
    const expires: real
    var consumed: bool

    constructor (expires: real)
      ensures this.expires == expires && !consumed
    {
      this.expires, consumed := expires, false;
    }

    method Consume(now: real) returns (usable: bool)
      modifies this
      ensures usable <==> !old(consumed) && now <= expires
      ensures consumed == (old(consumed) || usable)
    {
      if consumed || now > expires {
        return false;
      }
      consumed := true;
      return true;
    }
  }
}
