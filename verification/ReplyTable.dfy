/**
  The two dictionaries that route replies to callers, as a value: who waits for which id, which
  replies came before anyone asked, and what each waiter record holds.

  `W` is the identity of a waiter record; the caller that registered it keeps it after the reader
  has taken it out of the dictionary.
*/
module ReplyTable {
  import opened Wrappers
  import opened Json

  datatype Cell = Cell(signalled: bool, result: Option<Json>)

  datatype Table<!W> = Table(waiters: map<Key, W>, early: map<Key, Json>, cells: map<W, Cell>)
  {
    /** No id is both waited for and stashed, and every registered record exists and serves one id. */
    ghost predicate Valid() {
      && waiters.Keys !! early.Keys
      && waiters.Values <= cells.Keys
      && (forall k, k' | k in waiters && k' in waiters && k != k' :: waiters[k] != waiters[k'])
    }
  }

  datatype Begun = Returned(reply: Option<Json>) | Registered

  /** One reply: to the waiter of its id if there is one, otherwise stashed over any earlier one. */
  ghost function DeliverOne<W>(t: Table<W>, frame: Json): Table<W> {
    match ReplyKey(frame)
    case None => t
    case Some(k) =>
      if k in t.waiters then
        t.(waiters := t.waiters - {k}, cells := t.cells[t.waiters[k] := Cell(true, Some(frame))])
      else
        t.(early := t.early[k := frame])
  }

  /** The frames that are routed before the first one whose id does not hash. */
  function Routed(frames: seq<Json>): (n: nat)
    ensures n <= |frames|
  {
    if frames == [] || (HasId(frames[0]) && ReplyKey(frames[0]).None?) then 0
    else 1 + Routed(frames[1..])
  }

  ghost function Deliver<W>(t: Table<W>, frames: seq<Json>): Table<W>
    decreases |frames|
  {
    if frames == [] then t else DeliverOne(Deliver(t, frames[..|frames| - 1]), frames[|frames| - 1])
  }

  /** What the first locked section of a waiting call decides. */
  ghost function Ask<W>(t: Table<W>, k: Key): Begun {
    if k in t.early then Returned(Some(t.early[k]))
    else if k in t.waiters then Returned(None)
    else Registered
  }

  ghost function TakeEarly<W>(t: Table<W>, k: Key): Table<W> {
    t.(early := t.early - {k})
  }

  ghost function Register<W>(t: Table<W>, k: Key, w: W): Table<W> {
    t.(waiters := t.waiters[k := w], cells := t.cells[w := Cell(false, None)])
  }

  ghost function FinishWait<W>(t: Table<W>, k: Key): Table<W> {
    t.(waiters := t.waiters - {k})
  }

  ghost function ReaderExit<W>(t: Table<W>): Table<W> {
    t.(waiters := map[],
       cells := map w | w in t.cells :: if w in t.waiters.Values then Cell(true, None) else t.cells[w])
  }
}
