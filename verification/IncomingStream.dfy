/** A whole stream of chunks handled one after the other, as the reader thread does. */
module IncomingStream {
  import opened Wrappers
  import opened Bytes
  import opened Json
  import opened FrameCodec
  import opened IpcClient

  /** The frames handed on, the final receive buffer, and the exception that ended the reader, if any. */
  datatype Fed = Fed(frames: seq<Json>, buffer: seq<byte>, error: Option<IpcError>)

  function Feed(fmt: Format<Json>, buffer: seq<byte>, chunks: seq<seq<byte>>): Fed
    decreases |chunks|
  {
    if chunks == [] then Fed([], buffer, None)
    else
      var h := HandleBytes(fmt, buffer, chunks[0]);
      if h.outcome.Err? then Fed([], h.buffer, Some(h.outcome.error))
      else
        var rest := Feed(fmt, h.buffer, chunks[1..]);
        Fed(h.outcome.value + rest.frames, rest.buffer, rest.error)
  }

  /** What was received so far has been scanned without error and the buffer is what the scan left. */
  ghost predicate Consistent(fmt: Format<Json>, received: seq<byte>, buffer: seq<byte>) {
    var s := Scan(fmt, received);
    Clean(s) && buffer == received[s.consumed..]
  }

  /** One more chunk: the reader goes on exactly when the longer stream is clean, with exactly its new frames. */
  lemma HandleContinues(fmt: Format<Json>, received: seq<byte>, buffer: seq<byte>, chunk: seq<byte>)
    requires Consistent(fmt, received, buffer)
    ensures var before := Scan(fmt, received);
            var after := Scan(fmt, received + chunk);
            var h := HandleBytes(fmt, buffer, chunk);
            && (h.outcome.Ok? <==> Clean(after))
            && (h.outcome.Ok? ==> after.frames == before.frames + h.outcome.value)
            && (h.outcome.Ok? ==> Consistent(fmt, received + chunk, h.buffer))
            && before.frames <= after.frames
  {
    hide Scan;
    ScanExtends(fmt, received, chunk);
    var before := Scan(fmt, received);
    var more := Scan(fmt, buffer + chunk);
    assert (received + chunk)[before.consumed..] == buffer + chunk;
    assert (received + chunk)[before.consumed + more.consumed..] == (buffer + chunk)[more.consumed..];
    assert forall f :: f in before.frames + more.frames <==> f in before.frames || f in more.frames;
  }

  /** What a scan without errors leaves is less than one frame, so never more than 4 MiB and a prefix. */
  lemma {:induction false} LeftoverBounded(fmt: Format<Json>, received: seq<byte>, buffer: seq<byte>)
    requires Consistent(fmt, received, buffer)
    ensures Incomplete(buffer) && |buffer| < LENGTH_PREFIX_BYTES + MAX_FRAME_BYTES
  {
    hide Scan;
    DecodeSound(fmt, received);
  }

  predicate Clean(s: Scanned<Json>) {
    s.error.None? && AllDispatch(s.frames)
  }

  /** How feeding relates to scanning, when `earlier` frames had already been handed on. */
  ghost predicate Agrees(earlier: seq<Json>, fed: Fed, whole: Scanned<Json>, stream: seq<byte>)
    requires whole.consumed <= |stream|
  {
    && (fed.error.None? <==> Clean(whole))
    && (fed.error.None? ==> earlier + fed.frames == whole.frames && fed.buffer == stream[whole.consumed..])
    && earlier + fed.frames <= whole.frames
  }

  lemma {:induction false} FeedFrom(fmt: Format<Json>, received: seq<byte>, buffer: seq<byte>, chunks: seq<seq<byte>>)
    requires Consistent(fmt, received, buffer)
    ensures var stream := received + Concat(chunks);
            Agrees(Scan(fmt, received).frames, Feed(fmt, buffer, chunks), Scan(fmt, stream), stream)
    decreases |chunks|
  {
    hide Scan, HandleBytes;
    var earlier := Scan(fmt, received).frames;
    if chunks == [] {
      assert received + [] == received;
      assert earlier + [] == earlier;
    } else {
      var longer := received + chunks[0];
      var stream := received + Concat(chunks);
      var h := HandleBytes(fmt, buffer, chunks[0]);
      HandleContinues(fmt, received, buffer, chunks[0]);
      assert stream == longer + Concat(chunks[1..]);
      if h.outcome.Ok? {
        FeedFrom(fmt, longer, h.buffer, chunks[1..]);
        AgreesPrepend(earlier, h.outcome.value, Feed(fmt, h.buffer, chunks[1..]), Scan(fmt, stream), stream);
      } else {
        ErrorStays(fmt, longer, Concat(chunks[1..]));
        assert earlier + [] == earlier;
        assert earlier <= Scan(fmt, longer).frames <= Scan(fmt, stream).frames;
      }
    }
  }

  lemma AgreesPrepend(earlier: seq<Json>, now: seq<Json>, rest: Fed, whole: Scanned<Json>, stream: seq<byte>)
    requires whole.consumed <= |stream| && Agrees(earlier + now, rest, whole, stream)
    ensures Agrees(earlier, Fed(now + rest.frames, rest.buffer, rest.error), whole, stream)
  {
    assert (earlier + now) + rest.frames == earlier + (now + rest.frames);
  }

  /** A stream that cannot be scanned or dispatched stays so, whatever follows. */
  lemma ErrorStays(fmt: Format<Json>, a: seq<byte>, b: seq<byte>)
    requires !Clean(Scan(fmt, a))
    ensures !Clean(Scan(fmt, a + b)) && Scan(fmt, a).frames <= Scan(fmt, a + b).frames
  {
    hide Scan;
    ScanExtends(fmt, a, b);
    if !AllDispatch(Scan(fmt, a).frames) {
      var f :| f in Scan(fmt, a).frames && !Dispatches(f);
      assert f in Scan(fmt, a + b).frames;
    }
  }

  lemma StartConsistent(fmt: Format<Json>)
    ensures Consistent(fmt, [], []) && Scan(fmt, []).frames == []
  {
  }

  /**
    However a stream is cut into chunks, handling them returns what one scan of the whole stream
    finds and keeps the same residual; the reader dies if and only if the whole stream is bad, and
    even then has handed on only frames of the stream, in order.
  */
  lemma ChunkingIrrelevant(fmt: Format<Json>, chunks: seq<seq<byte>>)
    ensures var fed := Feed(fmt, [], chunks);
            var stream := Concat(chunks);
            var whole := Scan(fmt, stream);
            && (fed.error.None? <==> Clean(whole))
            && (fed.error.None? ==> fed.frames == whole.frames && fed.buffer == stream[whole.consumed..])
            && (fed.error.None? ==> |fed.buffer| < LENGTH_PREFIX_BYTES + MAX_FRAME_BYTES)
            && fed.frames <= whole.frames
  {
    hide *;
    StartConsistent(fmt);
    FeedFrom(fmt, [], [], chunks);
    assert [] + Concat(chunks) == Concat(chunks);
    AgreesFromStart(fmt, Feed(fmt, [], chunks), Concat(chunks));
  }

  lemma AgreesFromStart(fmt: Format<Json>, fed: Fed, stream: seq<byte>)
    requires Agrees([], fed, Scan(fmt, stream), stream)
    ensures var whole := Scan(fmt, stream);
            && (fed.error.None? <==> Clean(whole))
            && (fed.error.None? ==> fed.frames == whole.frames && fed.buffer == stream[whole.consumed..])
            && (fed.error.None? ==> |fed.buffer| < LENGTH_PREFIX_BYTES + MAX_FRAME_BYTES)
            && fed.frames <= whole.frames
  {
    hide Scan, Clean;
    assert [] + fed.frames == fed.frames;
    if fed.error.None? {
      LeftoverBounded(fmt, stream, fed.buffer);
    }
  }

  /** Encoded frames followed by part of another one, in any chunks, come out as those frames. */
  lemma WellFormedStream(fmt: Format<Json>, values: seq<Json>, next: seq<byte>, partial: seq<byte>, chunks: seq<seq<byte>>)
    requires forall v | v in values :: fmt.RoundTrips(v) && |fmt.print_(v)| <= MAX_FRAME_BYTES && Dispatches(v)
    requires |next| <= MAX_FRAME_BYTES && partial < Framed(next)
    requires Concat(chunks) == EncodeAll(fmt, values) + partial
    ensures Feed(fmt, [], chunks) == Fed(values, partial, None)
  {
    hide Scan, Feed;
    DecodeInvertsEncode(fmt, values, next, partial);
    ChunkingIrrelevant(fmt, chunks);
    assert (EncodeAll(fmt, values) + partial)[|EncodeAll(fmt, values)|..] == partial;
  }
}
