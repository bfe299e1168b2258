/** The IPC client object: receive buffer, request counter and reply dictionaries, updated in place. */
module IpcClient {
  import opened Wrappers
  import opened Bytes
  import opened Json
  import opened FrameCodec
  import opened ReplyTable

  datatype ConnectionState = Unconnected | Connecting | Authenticated | Ready | Closing

  /** What handling a chunk leaves behind: the frames or the exception, and the new receive buffer. */
  datatype Handled = Handled(outcome: Result<seq<Json>, IpcError>, buffer: seq<byte>)

  function HandleBytes(fmt: Format<Json>, buffer: seq<byte>, raw: seq<byte>): Handled {
    var all := buffer + raw;
    var s := Scan(fmt, all);
    if s.error.Some? then Handled(Err(s.error.value), all)
    else Handled(if AllDispatch(s.frames) then Ok(s.frames) else Err(TypeError), all[s.consumed..])
  }

  /** The notifications that reach the event handlers: all those before the first frame that raises. */
  function Notified(frames: seq<Json>): seq<Json> {
    if frames == [] || !Dispatches(frames[0]) then []
    else (if IsNotification(frames[0]) then [frames[0]] else []) + Notified(frames[1..])
  }

  class Waiter {
    var signalled: bool
    var result: Option<Json>

    constructor ()
      ensures !signalled && result == None
    {
      signalled := false;
      result := None;
    }
  }

  class Client {
    const fmt: Format<Json>
    var state: ConnectionState
    var requestCounter: nat
    var rxBuffer: seq<byte>
    var waiters: map<Key, Waiter>
    var earlyReplies: map<Key, Json>
    var readerDead: bool
    ghost var issued: set<Waiter>

    ghost function View(): Table<Waiter>
      reads this, issued
    {
      Table(waiters, earlyReplies, map w | w in issued :: Cell(w.signalled, w.result))
    }

    ghost predicate Valid()
      reads this, issued
    {
      View().Valid()
    }

    constructor (fmt: Format<Json>)
      ensures Valid() && View() == Table(map[], map[], map[])
      ensures this.fmt == fmt && rxBuffer == [] && requestCounter == 0 && state == Unconnected && !readerDead
    {
      this.fmt := fmt;
      state, requestCounter, rxBuffer := Unconnected, 0, [];
      waiters, earlyReplies, readerDead := map[], map[], false;
      issued := {};
    }

    predicate IsConnected(transport: bool)
      reads this
    {
      transport && (state == Ready || state == Authenticated) && !readerDead
    }

    /** The counter moves even when the frame is too large to send, so no id is ever handed out twice. */
    method BuildCommandFrame(name: string, params: Json) returns (id: nat, r: Result<seq<byte>, IpcError>)
      modifies this`requestCounter
      ensures state !in {Authenticated, Ready} ==>
                r == Err(NotReady) && requestCounter == old(requestCounter)
      ensures state in {Authenticated, Ready} ==>
                && requestCounter == old(requestCounter) + 1 == id
                && var payload := fmt.print_(Object(map[
                     "jsonrpc" := Text("2.0"), "id" := Number(id as real), "method" := Text(name), "params" := params]));
                   r == if |payload| > MAX_FRAME_BYTES then Err(FrameTooLarge) else Ok(Framed(payload))
    {
      if state != Authenticated && state != Ready {
        return 0, Err(NotReady);
      }
      requestCounter := requestCounter + 1;
      id := requestCounter;
      var request := Object(map[
        "jsonrpc" := Text("2.0"), "id" := Number(id as real), "method" := Text(name), "params" := params]);
      r := Encode(fmt, request);
    }

    method HandleIncomingBytes(raw: seq<byte>) returns (r: Result<seq<Json>, IpcError>, notified: seq<Json>)
      modifies this`rxBuffer
      ensures Handled(r, rxBuffer) == HandleBytes(fmt, old(rxBuffer), raw)
      ensures var s := Scan(fmt, old(rxBuffer) + raw);
              notified == if s.error.Some? then [] else Notified(s.frames)
    {
      notified := [];
      rxBuffer := rxBuffer + raw;
      ghost var all := rxBuffer;
      var decoded := Decode(fmt, rxBuffer);
      if decoded.Err? {
        return Err(decoded.error), [];
      }
      var (frames, consumed) := decoded.value;
      if consumed > 0 {
        rxBuffer := rxBuffer[consumed..];
      }
      assert rxBuffer == all[consumed..];
      r, notified := Dispatch(frames);
    }

    /** Hands notifications to the event handlers, whose own exceptions are swallowed. */
    method Dispatch(frames: seq<Json>) returns (r: Result<seq<Json>, IpcError>, notified: seq<Json>)
      ensures r == if AllDispatch(frames) then Ok(frames) else Err(TypeError)
      ensures notified == Notified(frames)
    {
      notified := [];
      var results: seq<Json> := [];
      for i := 0 to |frames|
        invariant results == frames[..i]
        invariant AllDispatch(frames[..i])
        invariant Notified(frames) == notified + Notified(frames[i..])
      {
        var frame := frames[i];
        results := results + [frame];
        assert frames[i..][1..] == frames[i + 1..];
        if !Dispatches(frame) {
          assert frame in frames;
          return Err(TypeError), notified;
        }
        if IsNotification(frame) {
          notified := notified + [frame];
        }
      }
      assert frames[..|frames|] == frames;
      r := Ok(results);
    }

    /** Routes replies in order; a frame whose id does not hash raises and leaves the later ones unrouted. */
    method DeliverReplies(frames: seq<Json>) returns (raised: bool)
      requires Valid()
      modifies this`waiters, this`earlyReplies, issued
      ensures Valid() && issued == old(issued)
      ensures View() == Deliver(old(View()), frames[..Routed(frames)])
      ensures raised <==> Routed(frames) < |frames|
    {
      raised := false;
      RoutedAll(frames, 0);
      for i := 0 to |frames|
        invariant Valid() && issued == old(issued)
        invariant View() == Deliver(old(View()), frames[..i])
        invariant i <= Routed(frames) && Routed(frames) == i + Routed(frames[i..])
      {
        var f := frames[i];
        RoutedAll(frames, i + 1);
        assert frames[i..][1..] == frames[i + 1..];
        assert frames[..i + 1][..i] == frames[..i];
        if !HasId(f) {
          continue;
        }
        var key := KeyOf(f.fields["id"]);
        if key == None {
          return true;
        }
        DeliverReply(key.value, f);
      }
      assert frames[..|frames|] == frames;
    }

    method DeliverReply(key: Key, f: Json)
      requires Valid() && ReplyKey(f) == Some(key)
      modifies this`waiters, this`earlyReplies, issued
      ensures Valid() && issued == old(issued)
      ensures View() == DeliverOne(old(View()), f)
    {
      if key in waiters {
        var waiter := waiters[key];
        assert waiter in waiters.Values;
        waiters := waiters - {key};
        waiter.result := Some(f);
        waiter.signalled := true;
      } else {
        earlyReplies := earlyReplies[key := f];
      }
      assert View().cells == DeliverOne(old(View()), f).cells;
    }

    /** The first locked section of a call that waits for its reply. */
    method BeginWaiting(id: nat) returns (reply: Option<Json>, waiter: Waiter?)
      requires Valid()
      modifies this`waiters, this`earlyReplies, this`issued
      ensures Valid()
      ensures waiter == null ==>
                && Ask(old(View()), RequestKey(id)) == Returned(reply)
                && View() == TakeEarly(old(View()), RequestKey(id))
      ensures waiter != null ==>
                && Ask(old(View()), RequestKey(id)) == Registered
                && fresh(waiter) && issued == old(issued) + {waiter}
                && View() == Register(old(View()), RequestKey(id), waiter)
    {
      var k := RequestKey(id);
      if k in earlyReplies {
        reply := Some(earlyReplies[k]);
        earlyReplies := earlyReplies - {k};
        return reply, null;
      }
      if k in waiters {
        assert earlyReplies - {k} == earlyReplies;
        return None, null;
      }
      var record := new Waiter();
      waiters := waiters[k := record];
      issued := issued + {record};
      assert View().cells == Register(old(View()), k, record).cells;
      assert forall w | w in waiters.Values :: w == record || w in old(waiters).Values;
      return None, record;
    }

    /** The last locked section: whatever the record holds now is the answer. */
    method FinishWaiting(id: nat, waiter: Waiter) returns (reply: Option<Json>)
      requires Valid() && waiter in issued
      modifies this`waiters
      ensures Valid() && View() == FinishWait(old(View()), RequestKey(id))
      ensures reply == old(View()).cells[waiter].result
    {
      waiters := waiters - {RequestKey(id)};
      reply := waiter.result;
    }

    method OnReaderExit()
      requires Valid()
      modifies this`waiters, this`readerDead, issued
      ensures Valid() && View() == ReaderExit(old(View()))
      ensures readerDead && issued == old(issued)
    {
      forall w | w in waiters.Values {
        w.result := None;
      }
      forall w | w in waiters.Values {
        w.signalled := true;
      }
      waiters := map[];
      readerDead := true;
    }
  }

  lemma {:induction false} RoutedAll(frames: seq<Json>, i: nat)
    requires i <= |frames|
    ensures i <= Routed(frames) ==> Routed(frames) == i + Routed(frames[i..])
  {
    if i > 0 && frames != [] {
      RoutedAll(frames[1..], i - 1);
      assert frames[1..][i - 1..] == frames[i..];
    } else {
      assert frames[0..] == frames;
    }
  }
}
