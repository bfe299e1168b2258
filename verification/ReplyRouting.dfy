/**
  Callers and the reader thread as an interleaving of atomic steps: each step is one locked section
  of the client, or one step of the single reader thread.
*/
module ReplyRouting {
  import opened Wrappers
  import opened Bytes
  import opened Json
  import opened FrameCodec
  import opened ReplyTable
  import opened IpcClient
  import opened IncomingStream

  /** Where the reader thread is: reading, about to route what it parsed, leaving its loop, gone. */
  datatype Reader = Idle | Parsed(frames: seq<Json>) | Stopping | Dead

  /** A command: written, waiting since `from` frames had been routed, or answered after `upto` of them. */
  datatype Call = Sent | Waiting(from: nat) | Answered(reply: Option<Json>, from: nat, upto: nat)

  /** `log` is every frame the reader has routed, in order; `received` every byte it has read. */
  datatype System = System(
    table: Table<nat>, calls: map<nat, Call>, counter: nat,
    log: seq<Json>, received: seq<byte>, buffer: seq<byte>, reader: Reader)

  datatype Event = Send(accepted: bool) | Begin(id: nat) | Finish(id: nat) | Read(chunk: seq<byte>) | Route | Exit

  const Start := System(Table(map[], map[], map[]), map[], 0, [], [], [], Idle)

  ghost predicate Next(fmt: Format<Json>, s: System, e: Event, s': System) {
    match e
    case Send(accepted) =>
      // The counter moves even when the frame turns out too large to write.
      s' == s.(counter := s.counter + 1, calls := if accepted then s.calls[s.counter + 1 := Sent] else s.calls)
    case Begin(id) =>
      && id in s.calls && s.calls[id].Sent?
      && var now := |s.log|;
         (match Ask(s.table, RequestKey(id))
          case Returned(reply) =>
            s' == s.(table := TakeEarly(s.table, RequestKey(id)), calls := s.calls[id := Answered(reply, now, now)])
          case Registered =>
            s' == s.(table := Register(s.table, RequestKey(id), id), calls := s.calls[id := Waiting(now)]))
    case Finish(id) =>
      // Enabled at any time: the record was signalled, or the deadline passed.
      && id in s.calls && s.calls[id].Waiting? && id in s.table.cells
      && s' == s.(table := FinishWait(s.table, RequestKey(id)),
                  calls := s.calls[id := Answered(s.table.cells[id].result, s.calls[id].from, |s.log|)])
    case Read(chunk) =>
      && s.reader.Idle?
      && var h := HandleBytes(fmt, s.buffer, chunk);
         s' == s.(received := s.received + chunk, buffer := h.buffer,
                  reader := if h.outcome.Ok? then Parsed(h.outcome.value) else Stopping)
    case Route =>
      && s.reader.Parsed?
      && var frames := s.reader.frames;
         var n := Routed(frames);
         s' == s.(table := Deliver(s.table, frames[..n]), log := s.log + frames[..n],
                  reader := if n < |frames| then Stopping else Idle)
    case Exit =>
      && (s.reader.Idle? || s.reader.Stopping?)
      && s' == s.(table := ReaderExit(s.table), reader := Dead)
  }

  /** Some run of exactly these events leads from the start to s. */
  ghost predicate Reaches(fmt: Format<Json>, events: seq<Event>, s: System)
    decreases |events|, 0
  {
    if events == [] then s == Start
    else ReachesBy(fmt, events[..|events| - 1], events[|events| - 1], s)
  }

  ghost predicate ReachesBy(fmt: Format<Json>, events: seq<Event>, last: Event, s: System)
    decreases |events|, 1
  {
    exists before :: Reaches(fmt, events, before) && Next(fmt, before, last, s)
  }

  // ---------- what a call should be told, in terms of the routed frames alone ----------

  predicate AnswersTo(frame: Json, k: Key) {
    ReplyKey(frame) == Some(k)
  }

  /** The earliest frame for k, if any. */
  function First(log: seq<Json>, k: Key): (r: Option<Json>)
    ensures r.Some? ==> AnswersTo(r.value, k)
    ensures r.None? <==> forall f | f in log :: !AnswersTo(f, k)
  {
    if log == [] then None
    else
      var f := log[|log| - 1];
      var before := First(log[..|log| - 1], k);
      assert log == log[..|log| - 1] + [f];
      if before.Some? then before else if AnswersTo(f, k) then Some(f) else None
  }

  /** The latest frame for k, if any. */
  function Last(log: seq<Json>, k: Key): (r: Option<Json>)
    ensures r.Some? ==> AnswersTo(r.value, k)
    ensures r.None? <==> forall f | f in log :: !AnswersTo(f, k)
  {
    if log == [] then None
    else
      var f := log[|log| - 1];
      assert log == log[..|log| - 1] + [f];
      if AnswersTo(f, k) then Some(f) else Last(log[..|log| - 1], k)
  }

  /** The last reply from before the call asked; failing that the first one up to its final look; else nothing. */
  function Expected(log: seq<Json>, from: nat, upto: nat, k: Key): Option<Json>
    requires from <= upto <= |log|
  {
    var early := Last(log[..from], k);
    if early.Some? then early else First(log[from..upto], k)
  }

  // ---------- the invariant ----------

  function Get<K, V>(m: map<K, V>, k: K): Option<V> {
    if k in m then Some(m[k]) else None
  }

  ghost predicate WaitersInv(s: System) {
    && s.table.Valid()
    && forall k | k in s.table.waiters ::
         var id := s.table.waiters[k];
         k == RequestKey(id) && id in s.calls && s.calls[id].Waiting?
  }

  /** Nobody has asked for this id yet: the stash holds its latest reply. */
  ghost predicate UnaskedInv(s: System, id: nat) {
    Get(s.table.early, RequestKey(id)) == Last(s.log, RequestKey(id))
  }

  ghost predicate WaitingInv(s: System, id: nat, from: nat) {
    var k := RequestKey(id);
    && from <= |s.log| && id in s.table.cells
    && Last(s.log[..from], k).None?
    && s.table.cells[id].result == First(s.log[from..], k)
    && (k in s.table.waiters ==> s.table.waiters[k] == id && s.table.cells[id].result.None?)
    && (k !in s.table.waiters && s.table.cells[id].result.None? ==> s.reader.Dead?)
  }

  ghost predicate AnsweredInv(s: System, id: nat, c: Call)
    requires c.Answered?
  {
    c.from <= c.upto <= |s.log| && c.reply == Expected(s.log, c.from, c.upto, RequestKey(id))
  }

  ghost predicate CallInv(s: System, id: nat) {
    if id !in s.calls || s.calls[id].Sent? then UnaskedInv(s, id)
    else if s.calls[id].Waiting? then WaitingInv(s, id, s.calls[id].from)
    else AnsweredInv(s, id, s.calls[id])
  }

  ghost predicate Inv(s: System) {
    && WaitersInv(s)
    && (forall id | id in s.calls :: id <= s.counter)
    && (forall id: nat :: CallInv(s, id))
  }

  lemma SliceAppend(log: seq<Json>, f: Json, from: nat)
    requires from <= |log|
    ensures (log + [f])[..from] == log[..from]
    ensures (log + [f])[from..] == log[from..] + [f]
    ensures (log[from..] + [f])[..|log[from..]|] == log[from..]
    ensures (log + [f])[..|log|] == log
  {
  }

  lemma ExpectedStable(log: seq<Json>, more: seq<Json>, from: nat, upto: nat, k: Key)
    requires from <= upto <= |log|
    ensures Expected(log + more, from, upto, k) == Expected(log, from, upto, k)
  {
    assert (log + more)[..from] == log[..from];
    assert (log + more)[from..upto] == log[from..upto];
  }

  ghost function RouteOne(s: System, f: Json): System {
    s.(table := DeliverOne(s.table, f), log := s.log + [f])
  }

  lemma RouteOneUnasked(s: System, f: Json, id: nat)
    requires WaitersInv(s) && UnaskedInv(s, id) && (id !in s.calls || s.calls[id].Sent?)
    ensures UnaskedInv(RouteOne(s, f), id)
  {
    hide Last, AnswersTo, DeliverOne;
    NotWaited(s, id);
    LastOfMore(s.log, f, RequestKey(id));
    StashAfter(s.table, f, RequestKey(id));
  }

  lemma NotWaited(s: System, id: nat)
    requires WaitersInv(s) && (id !in s.calls || s.calls[id].Sent?)
    ensures RequestKey(id) !in s.table.waiters
  {
  }

  lemma LastOfMore(log: seq<Json>, f: Json, k: Key)
    ensures Last(log + [f], k) == if ReplyKey(f) == Some(k) then Some(f) else Last(log, k)
  {
    assert (log + [f])[..|log|] == log;
  }

  lemma StashAfter(t: Table<nat>, f: Json, k: Key)
    requires k !in t.waiters
    ensures Get(DeliverOne(t, f).early, k) == if ReplyKey(f) == Some(k) then Some(f) else Get(t.early, k)
  {
  }

  lemma RouteOneWaiting(s: System, f: Json, id: nat, from: nat)
    requires WaitersInv(s) && WaitingInv(s, id, from) && !s.reader.Dead?
    ensures WaitingInv(RouteOne(s, f), id, from)
  {
    hide First, Last, AnswersTo, DeliverOne, WaitersInv;
    SliceAppend(s.log, f, from);
    FirstOfMore(s.log[from..], f, RequestKey(id));
    CellAfter(s, f, id);
  }

  lemma FirstOfMore(log: seq<Json>, f: Json, k: Key)
    ensures First(log + [f], k) == if First(log, k).Some? then First(log, k)
                                   else if ReplyKey(f) == Some(k) then Some(f) else None
  {
    assert (log + [f])[..|log|] == log;
  }

  lemma CellAfter(s: System, f: Json, id: nat)
    requires WaitersInv(s) && id in s.table.cells
    requires var k := RequestKey(id); k in s.table.waiters ==> s.table.waiters[k] == id
    ensures var t, t', k := s.table, DeliverOne(s.table, f), RequestKey(id);
            && id in t'.cells
            && t'.cells[id].result == (if ReplyKey(f) == Some(k) && k in t.waiters then Some(f) else t.cells[id].result)
            && (k in t'.waiters <==> k in t.waiters && ReplyKey(f) != Some(k))
            && (k in t'.waiters ==> t'.waiters[k] == id)
  {
  }

  /** Routing one frame keeps the invariant. */
  lemma RouteOneKeeps(s: System, f: Json)
    requires Inv(s) && !s.reader.Dead?
    ensures Inv(RouteOne(s, f))
  {
    var s' := RouteOne(s, f);
    forall id: nat ensures CallInv(s', id) {
      assert CallInv(s, id);
      if id !in s.calls || s.calls[id].Sent? {
        RouteOneUnasked(s, f, id);
      } else if s.calls[id].Waiting? {
        RouteOneWaiting(s, f, id, s.calls[id].from);
      } else {
        ExpectedStable(s.log, [f], s.calls[id].from, s.calls[id].upto, RequestKey(id));
      }
    }
  }

  lemma {:induction false} RouteManyKeeps(s: System, frames: seq<Json>)
    requires Inv(s) && !s.reader.Dead?
    ensures Inv(s.(table := Deliver(s.table, frames), log := s.log + frames))
    decreases |frames|
  {
    if frames == [] {
      assert s.log + [] == s.log;
    } else {
      var most, f := frames[..|frames| - 1], frames[|frames| - 1];
      RouteManyKeeps(s, most);
      RouteOneKeeps(s.(table := Deliver(s.table, most), log := s.log + most), f);
      assert (s.log + most) + [f] == s.log + frames;
    }
  }

  lemma BeginKeeps(fmt: Format<Json>, s: System, id: nat, s': System)
    requires Inv(s) && Next(fmt, s, Begin(id), s')
    ensures Inv(s')
  {
    assert CallInv(s, id);
    var now := |s.log|;
    assert s.log[..now] == s.log;
    assert s.log[now..now] == [] && s.log[now..] == [];
    forall other: nat ensures CallInv(s', other) {
      assert CallInv(s, other);
    }
  }

  lemma FinishKeeps(fmt: Format<Json>, s: System, id: nat, s': System)
    requires Inv(s) && Next(fmt, s, Finish(id), s')
    ensures Inv(s')
  {
    assert CallInv(s, id);
    assert s.log[s.calls[id].from..] == s.log[s.calls[id].from..|s.log|];
    forall other: nat ensures CallInv(s', other) {
      assert CallInv(s, other);
    }
  }

  lemma ExitKeeps(fmt: Format<Json>, s: System, s': System)
    requires Inv(s) && Next(fmt, s, Exit, s')
    ensures Inv(s')
  {
    forall id: nat ensures CallInv(s', id) {
      assert CallInv(s, id);
      if id in s.calls && s.calls[id].Waiting? && id in s.table.waiters.Values {
        var k :| k in s.table.waiters && s.table.waiters[k] == id;
      }
    }
  }

  /** Every step keeps the invariant. */
  lemma StepKeeps(fmt: Format<Json>, s: System, e: Event, s': System)
    requires Inv(s) && Next(fmt, s, e, s')
    ensures Inv(s')
  {
    match e
    case Begin(id) => BeginKeeps(fmt, s, id, s');
    case Finish(id) => FinishKeeps(fmt, s, id, s');
    case Exit => ExitKeeps(fmt, s, s');
    case Route =>
      RouteManyKeeps(s, s.reader.frames[..Routed(s.reader.frames)]);
      var routed := s'.(reader := s.reader);
      assert forall id: nat :: CallInv(routed, id) ==> CallInv(s', id);
    case Read(_) =>
      assert forall id: nat :: CallInv(s, id) ==> CallInv(s', id);
    case Send(_) =>
      assert forall id: nat :: CallInv(s, id) ==> CallInv(s', id);
  }

  lemma {:induction false} RunKeeps(fmt: Format<Json>, events: seq<Event>, s: System)
    requires Reaches(fmt, events, s)
    ensures Inv(s)
    decreases |events|
  {
    if events != [] {
      var before :| Reaches(fmt, events[..|events| - 1], before) && Next(fmt, before, events[|events| - 1], s);
      RunKeeps(fmt, events[..|events| - 1], before);
      StepKeeps(fmt, before, events[|events| - 1], s);
    }
  }

  // ---------- what every run guarantees ----------

  /** No id is ever both waited for and stashed, and a waiter entry always belongs to a call still waiting. */
  lemma TablesDisjoint(fmt: Format<Json>, events: seq<Event>, s: System)
    requires Reaches(fmt, events, s)
    ensures s.table.waiters.Keys !! s.table.early.Keys
    ensures forall k | k in s.table.waiters ::
              exists id :: id in s.calls && s.calls[id].Waiting? && k == RequestKey(id)
  {
    RunKeeps(fmt, events, s);
    forall k | k in s.table.waiters
      ensures exists id :: id in s.calls && s.calls[id].Waiting? && k == RequestKey(id)
    {
      var id := s.table.waiters[k];
      assert id in s.calls;
    }
  }

  /**
    The answer of every finished call is a function of the frames routed before it asked and before
    its final look, and of nothing else: which step came first never matters otherwise.
  */
  lemma AnswersExact(fmt: Format<Json>, events: seq<Event>, s: System, id: nat)
    requires Reaches(fmt, events, s) && id in s.calls && s.calls[id].Answered?
    ensures var c := s.calls[id];
            && c.from <= c.upto <= |s.log|
            && c.reply == Expected(s.log, c.from, c.upto, RequestKey(id))
  {
    RunKeeps(fmt, events, s);
    assert CallInv(s, id);
  }

  /** An answer is nothing or a frame with the call's own id; nothing means no such frame was routed in time. */
  lemma AnswerOrSilence(fmt: Format<Json>, events: seq<Event>, s: System, id: nat)
    requires Reaches(fmt, events, s) && id in s.calls && s.calls[id].Answered?
    ensures var c := s.calls[id];
            && c.upto <= |s.log|
            && (c.reply.Some? ==> AnswersTo(c.reply.value, RequestKey(id)) && c.reply.value in s.log[..c.upto])
            && (c.reply.None? <==> forall f | f in s.log[..c.upto] :: !AnswersTo(f, RequestKey(id)))
  {
    AnswersExact(fmt, events, s, id);
    var c, k := s.calls[id], RequestKey(id);
    assert s.log[..c.upto] == s.log[..c.from] + s.log[c.from..c.upto];
    FirstIn(s.log[c.from..c.upto], k);
    LastIn(s.log[..c.from], k);
  }

  lemma {:induction false} FirstIn(log: seq<Json>, k: Key)
    ensures First(log, k).Some? ==> First(log, k).value in log
  {
    if log != [] {
      FirstIn(log[..|log| - 1], k);
    }
  }

  lemma {:induction false} LastIn(log: seq<Json>, k: Key)
    ensures Last(log, k).Some? ==> Last(log, k).value in log
  {
    if log != [] {
      LastIn(log[..|log| - 1], k);
    }
  }

  /** The first reply is the one with no reply before it. */
  lemma {:induction false} FirstIsEarliest(log: seq<Json>, k: Key, i: nat)
    requires i < |log| && AnswersTo(log[i], k)
    requires forall j | 0 <= j < i :: !AnswersTo(log[j], k)
    ensures First(log, k) == Some(log[i])
  {
    var most := log[..|log| - 1];
    if i < |most| {
      FirstIsEarliest(most, k, i);
    } else {
      assert forall f | f in most :: !AnswersTo(f, k);
    }
  }

  /** The last reply is the one with no reply after it. */
  lemma {:induction false} LastIsLatest(log: seq<Json>, k: Key, i: nat)
    requires i < |log| && AnswersTo(log[i], k)
    requires forall j | i < j < |log| :: !AnswersTo(log[j], k)
    ensures Last(log, k) == Some(log[i])
  {
    var most := log[..|log| - 1];
    if i < |most| {
      LastIsLatest(most, k, i);
    }
  }

  /** With one reply per id, a call is given that reply exactly when it was routed before the call's final look. */
  lemma OneReplyIsDelivered(fmt: Format<Json>, events: seq<Event>, s: System, id: nat, i: nat)
    requires Reaches(fmt, events, s) && id in s.calls && s.calls[id].Answered?
    requires i < |s.log| && AnswersTo(s.log[i], RequestKey(id))
    requires forall j | 0 <= j < |s.log| && j != i :: !AnswersTo(s.log[j], RequestKey(id))
    ensures s.calls[id].reply == if i < s.calls[id].upto then Some(s.log[i]) else None
  {
    AnswerOrSilence(fmt, events, s, id);
    var c := s.calls[id];
    if i < c.upto {
      assert s.log[..c.upto][i] == s.log[i];
    }
    forall f | f in s.log[..c.upto] && AnswersTo(f, RequestKey(id)) ensures f == s.log[i] && i < c.upto {
      var j :| 0 <= j < c.upto && s.log[j] == f;
    }
  }

  // ---------- the reader and the byte stream ----------

  /** The frames routed, plus those parsed and not yet routed, are what the bytes read so far contain. */
  ghost predicate StreamInv(fmt: Format<Json>, s: System) {
    var found := Scan(fmt, s.received).frames;
    match s.reader
    case Idle => Consistent(fmt, s.received, s.buffer) && s.log == found
    case Parsed(frames) => Consistent(fmt, s.received, s.buffer) && s.log + frames == found
    case Stopping => s.log <= found
    case Dead => s.log <= found
  }

  lemma {:induction false} DispatchedRoute(frames: seq<Json>)
    requires AllDispatch(frames)
    ensures Routed(frames) == |frames|
  {
    if frames != [] {
      assert frames[0] in frames && Dispatches(frames[0]);
      DispatchedRoute(frames[1..]);
    }
  }

  lemma StreamStep(fmt: Format<Json>, s: System, e: Event, s': System)
    requires StreamInv(fmt, s) && Next(fmt, s, e, s')
    ensures StreamInv(fmt, s')
  {
    match e
    case Read(chunk) =>
      HandleContinues(fmt, s.received, s.buffer, chunk);
    case Route =>
      var frames := s.reader.frames;
      forall f | f in frames ensures Dispatches(f) {
        assert f in s.log + frames;
      }
      DispatchedRoute(frames);
      assert frames[..|frames|] == frames;
    case _ =>
  }

  lemma {:induction false} StreamRun(fmt: Format<Json>, events: seq<Event>, s: System)
    requires Reaches(fmt, events, s)
    ensures StreamInv(fmt, s)
    decreases |events|
  {
    if events != [] {
      var before :| Reaches(fmt, events[..|events| - 1], before) && Next(fmt, before, events[|events| - 1], s);
      StreamRun(fmt, events[..|events| - 1], before);
      StreamStep(fmt, before, events[|events| - 1], s);
    }
  }

  /** The frames in a part of an encoded stream are the first of the encoded values. */
  lemma PartOfStream(fmt: Format<Json>, replies: seq<Json>, received: seq<byte>)
    requires forall v | v in replies :: fmt.RoundTrips(v) && |fmt.print_(v)| <= MAX_FRAME_BYTES
    requires received <= EncodeAll(fmt, replies)
    ensures Scan(fmt, received).frames <= replies
    ensures received == EncodeAll(fmt, replies) ==> Scan(fmt, received).frames == replies
  {
    var wire := EncodeAll(fmt, replies);
    EncodeAllIsWire(fmt, replies);
    DecodeComplete(fmt, replies, wire, []);
    assert wire + [] == wire;
    var rest := wire[|received|..];
    assert received + rest == wire;
    ScanExtends(fmt, received, rest);
  }

  /**
    From bytes to answers. The daemon writes the frames of `replies`; the client has read any part of
    them, in any chunks, in any interleaving with its callers. Then exactly a prefix of the replies
    has been routed - all complete ones while the reader is idle - and a call that came back empty
    has no reply among them up to its final look.
  */
  lemma EndToEnd(fmt: Format<Json>, events: seq<Event>, s: System, replies: seq<Json>)
    requires Reaches(fmt, events, s)
    requires forall v | v in replies :: fmt.RoundTrips(v) && |fmt.print_(v)| <= MAX_FRAME_BYTES
    requires s.received <= EncodeAll(fmt, replies)
    ensures s.log <= replies
    ensures s.reader.Idle? && s.received == EncodeAll(fmt, replies) ==> s.log == replies
    ensures forall id | id in s.calls && s.calls[id].Answered? ::
              && s.calls[id].upto <= |replies|
              && (s.calls[id].reply.None? <==>
                  forall f | f in replies[..s.calls[id].upto] :: !AnswersTo(f, RequestKey(id)))
  {
    StreamRun(fmt, events, s);
    PartOfStream(fmt, replies, s.received);
    forall id | id in s.calls && s.calls[id].Answered?
      ensures && s.calls[id].upto <= |replies|
              && (s.calls[id].reply.None? <==>
                  forall f | f in replies[..s.calls[id].upto] :: !AnswersTo(f, RequestKey(id)))
    {
      AnswerOrSilence(fmt, events, s, id);
      assert s.log[..s.calls[id].upto] == replies[..s.calls[id].upto];
    }
  }
}
