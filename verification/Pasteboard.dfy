/** The macOS pasteboard with its change counter, and the adapter that snapshots, writes and restores it. */
module Pasteboard {
  import opened Wrappers
  import opened Bytes

  datatype InputCode = NoSelection | TargetChanged | ChangedExternally | PostEventRequired | NotAvailable | Failed

  /** A typed datum on the board; its bytes may not be readable. */
  datatype Representation = Representation(kind: string, data: Option<seq<byte>>)

  type Item = seq<Representation>

  datatype Board = Board(items: seq<Item>, changeCount: nat)

  /** A readable datum kept in a snapshot. */
  datatype Saved = Saved(kind: string, data: seq<byte>)

  datatype Snapshot = Snapshot(changeCount: nat, items: seq<seq<Saved>>)

  function ReadableItem(item: Item): seq<Saved> {
    if item == [] then []
    else (if item[0].data.Some? then [Saved(item[0].kind, item[0].data.value)] else []) + ReadableItem(item[1..])
  }

  /** What a snapshot can see of a board's items. */
  function Readable(items: seq<Item>): seq<seq<Saved>> {
    if items == [] then [] else [ReadableItem(items[0])] + Readable(items[1..])
  }

  function PutItem(saved: seq<Saved>): Item {
    if saved == [] then [] else [Representation(saved[0].kind, Some(saved[0].data))] + PutItem(saved[1..])
  }

  function Put(saved: seq<seq<Saved>>): seq<Item> {
    if saved == [] then [] else [PutItem(saved[0])] + Put(saved[1..])
  }

  function Snap(b: Board): Snapshot {
    Snapshot(b.changeCount, Readable(b.items))
  }

  /**
    How the board answers a write: it takes it; nothing happens, because items cannot be made or a call before the
    clearing raises; it is cleared and no more; or it is written and only then a call raises.
  */
  datatype Reply = Accepts | Untouched(missing: bool) | Rejects | Lost
  {
    predicate Writes() {
      Accepts? || Lost?
    }
  }

  /** Writing clears first, so a rejected write leaves an empty board with a new count. */
  function Write(b: Board, items: seq<Item>, reply: Reply): (Result<nat, InputCode>, Board) {
    match reply
    case Accepts => (Ok(b.changeCount + 1), Board(items, b.changeCount + 1))
    case Untouched(_) => (Err(Failed), b)
    case Rejects => (Err(Failed), Board([], b.changeCount + 1))
    case Lost => (Err(Failed), Board(items, b.changeCount + 1))
  }

  /** An empty snapshot has nothing to write, and clears a second time instead. */
  function PutBack(b: Board, saved: Snapshot): Board {
    if saved.items == [] then Board([], b.changeCount + 2) else Board(Put(saved.items), b.changeCount + 1)
  }

  /** A restore goes ahead only if the count is the expected one, when one is expected. */
  function Restore(b: Board, saved: Snapshot, expected: Option<nat>, reply: Reply): (Result<nat, InputCode>, Board) {
    if reply == Untouched(false) then (Err(Failed), b)
    else if expected.Some? && b.changeCount != expected.value then (Err(ChangedExternally), b)
    else
      match reply
      case Accepts => (Ok(PutBack(b, saved).changeCount), PutBack(b, saved))
      case Untouched(_) => (Err(NotAvailable), b)
      case Rejects => (Err(Failed), Board([], b.changeCount + 1))
      case Lost => (Err(Failed), PutBack(b, saved))
  }

  lemma {:induction false} ReadablePutItem(saved: seq<Saved>)
    ensures ReadableItem(PutItem(saved)) == saved
  {
    if saved != [] {
      ReadablePutItem(saved[1..]);
      assert PutItem(saved)[1..] == PutItem(saved[1..]);
      assert saved == [saved[0]] + saved[1..];
    }
  }

  /** A snapshot of what was put back is the snapshot that was put back. */
  lemma {:induction false} ReadablePut(saved: seq<seq<Saved>>)
    ensures Readable(Put(saved)) == saved
  {
    if saved != [] {
      ReadablePut(saved[1..]);
      ReadablePutItem(saved[0]);
      assert Put(saved)[1..] == Put(saved[1..]);
      assert saved == [saved[0]] + saved[1..];
    }
  }

  lemma {:induction false} ReadableItemAppend(item: Item, r: Representation)
    ensures ReadableItem(item + [r]) ==
            ReadableItem(item) + if r.data.Some? then [Saved(r.kind, r.data.value)] else []
  {
    hide ReadableItem;
    ReadableItemParts(item + [r]);
    ReadableItemParts(item);
    if item == [] {
      assert item + [r] == [r] && [r][1..] == [];
    } else {
      assert (item + [r])[1..] == item[1..] + [r];
      ReadableItemAppend(item[1..], r);
    }
  }

  lemma ReadableItemParts(item: Item)
    ensures ReadableItem([]) == []
    ensures item != [] ==>
              ReadableItem(item)
              == (if item[0].data.Some? then [Saved(item[0].kind, item[0].data.value)] else []) + ReadableItem(item[1..])
  {
  }

  lemma {:induction false} ReadableAppend(items: seq<Item>, item: Item)
    ensures Readable(items + [item]) == Readable(items) + [ReadableItem(item)]
  {
    if items == [] {
      assert items + [item] == [item];
      assert [item][1..] == [];
    } else {
      assert (items + [item])[1..] == items[1..] + [item];
      ReadableAppend(items[1..], item);
    }
  }

  lemma {:induction false} PutItemAppend(saved: seq<Saved>, s: Saved)
    ensures PutItem(saved + [s]) == PutItem(saved) + [Representation(s.kind, Some(s.data))]
  {
    if saved == [] {
      assert saved + [s] == [s];
      assert [s][1..] == [];
    } else {
      assert (saved + [s])[1..] == saved[1..] + [s];
      PutItemAppend(saved[1..], s);
    }
  }

  lemma {:induction false} PutAppend(saved: seq<seq<Saved>>, item: seq<Saved>)
    ensures Put(saved + [item]) == Put(saved) + [PutItem(item)]
  {
    if saved == [] {
      assert saved + [item] == [item];
      assert [item][1..] == [];
    } else {
      assert (saved + [item])[1..] == saved[1..] + [item];
      PutAppend(saved[1..], item);
    }
  }

  class GeneralPasteboard {
    var items: seq<Item>
    var changeCount: nat

    ghost function View(): Board
      reads this
    {
      Board(items, changeCount)
    }

    constructor (items: seq<Item>, changeCount: nat)
      ensures View() == Board(items, changeCount)
    {
      this.items, this.changeCount := items, changeCount;
    }

    method ClearContents()
      modifies this
      ensures View() == Board([], old(changeCount) + 1)
    {
      items := [];
      changeCount := changeCount + 1;
    }

    method WriteObjects(objects: seq<Item>, accepted: bool) returns (ok: bool)
      modifies this
      ensures ok == accepted && changeCount == old(changeCount)
      ensures items == if accepted then objects else old(items)
    {
      if accepted {
        items := objects;
      }
      ok := accepted;
    }

    /** Every readable representation of every item, and the count; nothing if the board cannot be read. */
    method SnapshotPasteboard(readable: bool) returns (r: Result<Snapshot, InputCode>)
      ensures r == if readable then Ok(Snap(View())) else Err(Failed)
    {
      if !readable {
        return Err(Failed);
      }
      var saved: seq<seq<Saved>> := [];
      for i := 0 to |items|
        invariant saved == Readable(items[..i])
      {
        var item := items[i];
        var representations: seq<Saved> := [];
        for j := 0 to |item|
          invariant representations == ReadableItem(item[..j])
        {
          if item[j].data.Some? {
            representations := representations + [Saved(item[j].kind, item[j].data.value)];
          }
          ReadableItemAppend(item[..j], item[j]);
          assert item[..j + 1] == item[..j] + [item[j]];
        }
        assert item[..|item|] == item;
        saved := saved + [representations];
        ReadableAppend(items[..i], item);
        assert items[..i + 1] == items[..i] + [item];
      }
      assert items[..|items|] == items;
      r := Ok(Snapshot(changeCount, saved));
    }

    method WriteText(textItems: seq<Item>, reply: Reply) returns (r: Result<nat, InputCode>)
      modifies this
      ensures (r, View()) == Write(old(View()), textItems, reply)
    {
      if reply.Untouched? {
        return Err(Failed);
      }
      ClearContents();
      var ok := WriteObjects(textItems, reply.Writes());
      if !ok || reply.Lost? {
        return Err(Failed);
      }
      r := Ok(changeCount);
    }

    method RestoreSnapshot(saved: Snapshot, expected: Option<nat>, reply: Reply) returns (r: Result<nat, InputCode>)
      modifies this
      ensures (r, View()) == Restore(old(View()), saved, expected, reply)
    {
      if reply == Untouched(false) {
        return Err(Failed);
      }
      if expected.Some? && changeCount != expected.value {
        return Err(ChangedExternally);
      }
      if reply.Untouched? {
        return Err(NotAvailable);
      }
      ClearContents();
      assert items == [];
      var objects: seq<Item> := [];
      for i := 0 to |saved.items|
        invariant View() == Board([], old(changeCount) + 1)
        invariant objects == Put(saved.items[..i])
      {
        var item: Item := [];
        for j := 0 to |saved.items[i]|
          invariant View() == Board([], old(changeCount) + 1)
          invariant item == PutItem(saved.items[i][..j])
        {
          var s := saved.items[i][j];
          item := item + [Representation(s.kind, Some(s.data))];
          PutItemAppend(saved.items[i][..j], s);
          assert saved.items[i][..j + 1] == saved.items[i][..j] + [s];
        }
        assert saved.items[i][..|saved.items[i]|] == saved.items[i];
        objects := objects + [item];
        PutAppend(saved.items[..i], saved.items[i]);
        assert saved.items[..i + 1] == saved.items[..i] + [saved.items[i]];
      }
      assert saved.items[..|saved.items|] == saved.items;
      assert |objects| == |saved.items| by { PutLength(saved.items); }
      if reply.Rejects? {
        return Err(Failed);
      }
      if objects == [] {
        ClearContents();
      } else {
        var _ := WriteObjects(objects, true);
      }
      r := if reply.Lost? then Err(Failed) else Ok(changeCount);
    }
  }

  lemma {:induction false} PutLength(saved: seq<seq<Saved>>)
    ensures |Put(saved)| == |saved|
  {
    if saved != [] {
      PutLength(saved[1..]);
    }
  }
}
