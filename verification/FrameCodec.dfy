/**
  The length-prefixed frame codec of the IPC wire protocol.

  JSON and UTF-8 stay abstract: a `Format` carries a printer from values to payload bytes and a
  parser back, which fails on bytes that are not a JSON text.
*/
module FrameCodec {
  import opened Wrappers
  import opened Bytes

  const MAX_FRAME_BYTES: nat := 4 * 1024 * 1024
  const LENGTH_PREFIX_BYTES: nat := 8

  datatype IpcError = FrameTooLarge | MalformedFrame | NotReady | TypeError

  datatype Format<!V> = Format(print_: V -> seq<byte>, parse: seq<byte> -> Option<V>)
  {
    /** Printing and parsing are inverse on the values that the client sends. */
    ghost predicate RoundTrips(v: V) {
      parse(print_(v)) == Some(v)
    }
  }

  /** What a scan of a buffer finds: the complete frames, the bytes they take, and why it stopped early. */
  datatype Scanned<V> = Scanned(frames: seq<V>, consumed: nat, error: Option<IpcError>)

  function Framed(payload: seq<byte>): (s: seq<byte>) {
    ToBE(|payload|, LENGTH_PREFIX_BYTES) + payload
  }

  method Encode<V>(fmt: Format<V>, value: V) returns (r: Result<seq<byte>, IpcError>)
    ensures r.Err? <==> |fmt.print_(value)| > MAX_FRAME_BYTES
    ensures r.Err? ==> r.error == FrameTooLarge
    ensures r.Ok? ==> r.value == Framed(fmt.print_(value))
  {
    var payload := fmt.print_(value);
    if |payload| > MAX_FRAME_BYTES {
      return Err(FrameTooLarge);
    }
    var lengthPrefix := ToBE(|payload|, LENGTH_PREFIX_BYTES);
    r := Ok(lengthPrefix + payload);
  }

  /** The specification of decoding: one frame at a time from the front of the buffer. */
  function Scan<V>(fmt: Format<V>, buffer: seq<byte>): (r: Scanned<V>)
    ensures r.consumed <= |buffer|
    decreases |buffer|
  {
    if |buffer| < LENGTH_PREFIX_BYTES then
      Scanned([], 0, None)
    else
      var payloadLen := FromBE(buffer[..LENGTH_PREFIX_BYTES]);
      if payloadLen > MAX_FRAME_BYTES then
        Scanned([], 0, Some(FrameTooLarge))
      else if |buffer| < LENGTH_PREFIX_BYTES + payloadLen then
        Scanned([], 0, None)
      else
        match fmt.parse(buffer[LENGTH_PREFIX_BYTES..LENGTH_PREFIX_BYTES + payloadLen])
        case None => Scanned([], 0, Some(MalformedFrame))
        case Some(v) =>
          Preceded(v, LENGTH_PREFIX_BYTES + payloadLen, Scan(fmt, buffer[LENGTH_PREFIX_BYTES + payloadLen..]))
  }

  /** A scan with one more frame of n bytes in front. */
  function Preceded<V>(v: V, n: nat, rest: Scanned<V>): Scanned<V> {
    Scanned([v] + rest.frames, n + rest.consumed, rest.error)
  }

  function Outcome<V>(s: Scanned<V>): Result<(seq<V>, nat), IpcError> {
    if s.error.Some? then Err(s.error.value) else Ok((s.frames, s.consumed))
  }

  /** A scan with these frames and bytes in front. */
  function After<V>(frames: seq<V>, consumed: nat, rest: Scanned<V>): Scanned<V> {
    Scanned(frames + rest.frames, consumed + rest.consumed, rest.error)
  }

  method Decode<V>(fmt: Format<V>, buffer: seq<byte>) returns (r: Result<(seq<V>, nat), IpcError>)
    ensures r == Outcome(Scan(fmt, buffer))
  {
    hide Scan, Incomplete, Framed, FromBE, ToBE;
    var frames: seq<V> := [];
    var consumed := 0;
    assert buffer[0..] == buffer && After([], 0, Scan(fmt, buffer)) == Scan(fmt, buffer);
    while true
      invariant consumed <= |buffer|
      invariant Scan(fmt, buffer) == After(frames, consumed, Scan(fmt, buffer[consumed..]))
      decreases |buffer| - consumed
    {
      ghost var tail := buffer[consumed..];
      var remaining := |buffer| - consumed;
      if remaining < LENGTH_PREFIX_BYTES {
        ScanShort(fmt, tail);
        break;
      }
      TailSlice(buffer, consumed, 0, LENGTH_PREFIX_BYTES);
      var payloadLen := FromBE(buffer[consumed..consumed + LENGTH_PREFIX_BYTES]);
      if payloadLen > MAX_FRAME_BYTES {
        ScanOversized(fmt, tail);
        return Err(FrameTooLarge);
      }
      var totalFrameLen := LENGTH_PREFIX_BYTES + payloadLen;
      if remaining < totalFrameLen {
        ScanShort(fmt, tail);
        break;
      }
      var payload := buffer[consumed + LENGTH_PREFIX_BYTES..consumed + totalFrameLen];
      TailSlice(buffer, consumed, LENGTH_PREFIX_BYTES, totalFrameLen);
      FrontFrame(tail);
      ScanFrame(fmt, payload, tail[totalFrameLen..]);
      match fmt.parse(payload) {
        case None =>
          return Err(MalformedFrame);
        case Some(parsed) =>
          AfterPreceded(frames, consumed, parsed, totalFrameLen, Scan(fmt, tail[totalFrameLen..]));
          frames := frames + [parsed];
          consumed := consumed + totalFrameLen;
      }
    }
    assert frames + [] == frames;
    r := Ok((frames, consumed));
  }

  lemma AfterPreceded<V>(frames: seq<V>, consumed: nat, v: V, n: nat, rest: Scanned<V>)
    ensures After(frames, consumed, Preceded(v, n, rest)) == After(frames + [v], consumed + n, rest)
  {
    assert frames + ([v] + rest.frames) == (frames + [v]) + rest.frames;
  }

  lemma TailSlice(buffer: seq<byte>, start: nat, i: nat, j: nat)
    requires i <= j && start + j <= |buffer|
    ensures buffer[start..][i..j] == buffer[start + i..start + j]
    ensures buffer[start..][..j] == buffer[start..start + j]
    ensures buffer[start..][j..] == buffer[start + j..]
  {
  }

  lemma ScanShort<V>(fmt: Format<V>, rest: seq<byte>)
    requires || |rest| < LENGTH_PREFIX_BYTES
             || (var payloadLen := FromBE(rest[..LENGTH_PREFIX_BYTES]);
                 payloadLen <= MAX_FRAME_BYTES && |rest| < LENGTH_PREFIX_BYTES + payloadLen)
    ensures Scan(fmt, rest) == Scanned([], 0, None)
  {
  }

  lemma ScanOversized<V>(fmt: Format<V>, rest: seq<byte>)
    requires |rest| >= LENGTH_PREFIX_BYTES && FromBE(rest[..LENGTH_PREFIX_BYTES]) > MAX_FRAME_BYTES
    ensures Scan(fmt, rest) == Scanned([], 0, Some(FrameTooLarge))
  {
  }

  // ---------- what a scan means, without reading its body ----------

  /** `wire` is exactly a run of complete frames, one per value, in order. */
  ghost predicate IsWireOf<V(!new)>(fmt: Format<V>, values: seq<V>, wire: seq<byte>)
    decreases |values|
  {
    if values == [] then wire == []
    else exists payload: seq<byte> | |payload| <= MAX_FRAME_BYTES ::
           && fmt.parse(payload) == Some(values[0])
           && Framed(payload) <= wire
           && IsWireOf(fmt, values[1..], wire[|Framed(payload)|..])
  }

  /** Less than one full frame: too short for a length prefix, or shorter than an admissible prefix says. */
  predicate Incomplete(rest: seq<byte>) {
    || |rest| < LENGTH_PREFIX_BYTES
    || (var payloadLen := FromBE(rest[..LENGTH_PREFIX_BYTES]);
        payloadLen <= MAX_FRAME_BYTES && |rest| < LENGTH_PREFIX_BYTES + payloadLen)
  }

  lemma FramedHead(payload: seq<byte>, tail: seq<byte>)
    requires |payload| <= MAX_FRAME_BYTES
    ensures var wire := Framed(payload) + tail;
            && FromBE(wire[..LENGTH_PREFIX_BYTES]) == |payload|
            && wire[LENGTH_PREFIX_BYTES..LENGTH_PREFIX_BYTES + |payload|] == payload
            && wire[LENGTH_PREFIX_BYTES + |payload|..] == tail
            && |Framed(payload)| == LENGTH_PREFIX_BYTES + |payload|
  {
    Pow256Widths();
    FromToBE(|payload|, LENGTH_PREFIX_BYTES);
    var wire := Framed(payload) + tail;
    assert wire[..LENGTH_PREFIX_BYTES] == ToBE(|payload|, LENGTH_PREFIX_BYTES);
  }

  /** One frame in front of anything is read first; a payload that is not JSON stops the scan. */
  lemma ScanFrame<V>(fmt: Format<V>, payload: seq<byte>, tail: seq<byte>)
    requires |payload| <= MAX_FRAME_BYTES
    ensures var rest := Scan(fmt, tail);
            Scan(fmt, Framed(payload) + tail) ==
            match fmt.parse(payload)
            case None => Scanned([], 0, Some(MalformedFrame))
            case Some(v) => Preceded(v, |Framed(payload)|, rest)
  {
    FramedHead(payload, tail);
  }

  /** The front of a buffer that holds a complete frame is that frame. */
  lemma FrontFrame(buffer: seq<byte>)
    requires |buffer| >= LENGTH_PREFIX_BYTES
    requires |buffer| >= LENGTH_PREFIX_BYTES + FromBE(buffer[..LENGTH_PREFIX_BYTES])
    ensures var n := LENGTH_PREFIX_BYTES + FromBE(buffer[..LENGTH_PREFIX_BYTES]);
            buffer == Framed(buffer[LENGTH_PREFIX_BYTES..n]) + buffer[n..]
            && |Framed(buffer[LENGTH_PREFIX_BYTES..n])| == n
  {
    hide FromBE, ToBE;
    ToFromBE(buffer[..LENGTH_PREFIX_BYTES]);
  }

  /** A strict prefix of a frame is incomplete. */
  lemma StrictPrefixIncomplete(payload: seq<byte>, rest: seq<byte>)
    requires |payload| <= MAX_FRAME_BYTES && rest < Framed(payload)
    ensures Incomplete(rest)
  {
    FramedHead(payload, []);
    assert Framed(payload) + [] == Framed(payload);
    if |rest| >= LENGTH_PREFIX_BYTES {
      assert rest[..LENGTH_PREFIX_BYTES] == Framed(payload)[..LENGTH_PREFIX_BYTES];
    }
  }

  // ---------- decoding is exactly the reading of a run of frames and an incomplete rest ----------

  lemma ScanIncomplete<V>(fmt: Format<V>, rest: seq<byte>)
    requires Incomplete(rest)
    ensures Scan(fmt, rest) == Scanned([], 0, None)
  {
  }

  /** Any run of frames in front of an incomplete rest is what scanning finds, and only that. */
  lemma {:induction false} DecodeComplete<V(!new)>(fmt: Format<V>, values: seq<V>, wire: seq<byte>, rest: seq<byte>)
    requires IsWireOf(fmt, values, wire) && Incomplete(rest)
    ensures Scan(fmt, wire + rest) == Scanned(values, |wire|, None)
    decreases |values|
  {
    hide Scan, Framed, Incomplete, FromBE, ToBE;
    if values == [] {
      assert wire + rest == rest;
      ScanIncomplete(fmt, rest);
    } else {
      var payload: seq<byte> :|
        && |payload| <= MAX_FRAME_BYTES
        && fmt.parse(payload) == Some(values[0])
        && Framed(payload) <= wire
        && IsWireOf(fmt, values[1..], wire[|Framed(payload)|..]);
      var frame := Framed(payload);
      var more := wire[|frame|..];
      DecodeComplete(fmt, values[1..], more, rest);
      ScanFrame(fmt, payload, more + rest);
      Regroup(frame, more, wire, rest);
      assert [values[0]] + values[1..] == values;
    }
  }

  lemma Regroup(frame: seq<byte>, more: seq<byte>, whole: seq<byte>, rest: seq<byte>)
    requires frame <= whole && more == whole[|frame|..]
    ensures whole + rest == frame + (more + rest)
  {
  }

  lemma {:induction false} DecodeSound<V(!new)>(fmt: Format<V>, buffer: seq<byte>)
    ensures var s := Scan(fmt, buffer);
            && IsWireOf(fmt, s.frames, buffer[..s.consumed])
            && (s.error.None? ==> Incomplete(buffer[s.consumed..]))
    decreases |buffer|
  {
    hide Scan, Framed, FromBE, ToBE, IsWireOf, Preceded;
    NoWire(fmt, buffer);
    if Incomplete(buffer) {
      ScanIncomplete(fmt, buffer);
    } else if FromBE(buffer[..LENGTH_PREFIX_BYTES]) > MAX_FRAME_BYTES {
      ScanOversized(fmt, buffer);
    } else {
      var n := LENGTH_PREFIX_BYTES + FromBE(buffer[..LENGTH_PREFIX_BYTES]);
      var payload, tail := buffer[LENGTH_PREFIX_BYTES..n], buffer[n..];
      FrontFrame(buffer);
      ScanFrame(fmt, payload, tail);
      if fmt.parse(payload).Some? {
        DecodeSound(fmt, tail);
        MoreWire(fmt, fmt.parse(payload).value, payload, Scan(fmt, tail), tail, buffer);
      }
    }
  }

  lemma NoWire<V(!new)>(fmt: Format<V>, buffer: seq<byte>)
    ensures IsWireOf(fmt, [], buffer[..0]) && buffer[0..] == buffer
  {
  }

  /** A frame in front of a tail that was read soundly. */
  lemma MoreWire<V(!new)>(fmt: Format<V>, v: V, payload: seq<byte>, rest: Scanned<V>, tail: seq<byte>, buffer: seq<byte>)
    requires |payload| <= MAX_FRAME_BYTES && fmt.parse(payload) == Some(v) && buffer == Framed(payload) + tail
    requires rest.consumed <= |tail| && IsWireOf(fmt, rest.frames, tail[..rest.consumed])
    ensures var s := Preceded(v, |Framed(payload)|, rest);
            && s.consumed <= |buffer| && s.error == rest.error
            && IsWireOf(fmt, s.frames, buffer[..s.consumed])
            && buffer[s.consumed..] == tail[rest.consumed..]
  {
    hide Framed;
    var n := |Framed(payload)|;
    var wire := buffer[..n + rest.consumed];
    assert wire[n..] == tail[..rest.consumed];
    assert ([v] + rest.frames)[1..] == rest.frames;
    assert Framed(payload) <= wire;
  }

  /** Decoding succeeds with these frames and this count if and only if the buffer is such a run and rest. */
  lemma DecodeExact<V(!new)>(fmt: Format<V>, buffer: seq<byte>, values: seq<V>, consumed: nat)
    requires consumed <= |buffer|
    ensures Outcome(Scan(fmt, buffer)) == Ok((values, consumed)) <==>
            IsWireOf(fmt, values, buffer[..consumed]) && Incomplete(buffer[consumed..])
  {
    hide IsWireOf, Incomplete, Scan, FromBE;
    DecodeSound(fmt, buffer);
    if IsWireOf(fmt, values, buffer[..consumed]) && Incomplete(buffer[consumed..]) {
      DecodeComplete(fmt, values, buffer[..consumed], buffer[consumed..]);
      assert buffer[..consumed] + buffer[consumed..] == buffer;
    }
  }

  function EncodeAll<V>(fmt: Format<V>, values: seq<V>): (wire: seq<byte>) {
    if values == [] then [] else Framed(fmt.print_(values[0])) + EncodeAll(fmt, values[1..])
  }

  lemma {:induction false} EncodeAllIsWire<V(!new)>(fmt: Format<V>, values: seq<V>)
    requires forall v | v in values :: fmt.RoundTrips(v) && |fmt.print_(v)| <= MAX_FRAME_BYTES
    ensures IsWireOf(fmt, values, EncodeAll(fmt, values))
  {
    if values != [] {
      var payload := fmt.print_(values[0]);
      assert values[0] in values && fmt.RoundTrips(values[0]);
      EncodeAllIsWire(fmt, values[1..]);
      assert EncodeAll(fmt, values)[|Framed(payload)|..] == EncodeAll(fmt, values[1..]);
      assert Framed(payload) <= EncodeAll(fmt, values);
    }
  }

  /** Decoding inverts the concatenation of any encoded values followed by a strict prefix of one more frame. */
  lemma DecodeInvertsEncode<V(!new)>(fmt: Format<V>, values: seq<V>, next: seq<byte>, partial: seq<byte>)
    requires forall v | v in values :: fmt.RoundTrips(v) && |fmt.print_(v)| <= MAX_FRAME_BYTES
    requires |next| <= MAX_FRAME_BYTES && partial < Framed(next)
    ensures Outcome(Scan(fmt, EncodeAll(fmt, values) + partial)) == Ok((values, |EncodeAll(fmt, values)|))
  {
    EncodeAllIsWire(fmt, values);
    StrictPrefixIncomplete(next, partial);
    DecodeComplete(fmt, values, EncodeAll(fmt, values), partial);
  }

  // ---------- decoding a stream piece by piece ----------

  /** The scan of a + b, given how a was scanned: an error once found stays, otherwise the scan goes on. */
  function Extended<V>(first: Scanned<V>, more: Scanned<V>): Scanned<V> {
    if first.error.Some? then first
    else Scanned(first.frames + more.frames, first.consumed + more.consumed, more.error)
  }

  lemma {:induction false} ScanExtends<V>(fmt: Format<V>, a: seq<byte>, b: seq<byte>)
    ensures Scan(fmt, a + b) == Extended(Scan(fmt, a), Scan(fmt, a[Scan(fmt, a).consumed..] + b))
    decreases |a|
  {
    hide FromBE, ToBE, Framed;
    if Incomplete(a) {
      ScanIncomplete(fmt, a);
      assert a[0..] == a;
      var more := Scan(fmt, a + b);
      assert [] + more.frames == more.frames;
    } else if FromBE(a[..LENGTH_PREFIX_BYTES]) > MAX_FRAME_BYTES {
      assert (a + b)[..LENGTH_PREFIX_BYTES] == a[..LENGTH_PREFIX_BYTES];
    } else {
      var n := LENGTH_PREFIX_BYTES + FromBE(a[..LENGTH_PREFIX_BYTES]);
      FrontFrame(a);
      ScanExtendsFrame(fmt, a[LENGTH_PREFIX_BYTES..n], a[n..], b, a);
    }
  }

  lemma DropPast(frame: seq<byte>, tail: seq<byte>, k: nat, whole: seq<byte>)
    requires k <= |tail| && whole == frame + tail
    ensures whole[|frame| + k..] == tail[k..]
  {
  }

  lemma ExtendPreceded<V>(v: V, n: nat, rest: Scanned<V>, more: Scanned<V>)
    ensures Extended(Preceded(v, n, rest), more) == Preceded(v, n, Extended(rest, more))
  {
    assert ([v] + rest.frames) + more.frames == [v] + (rest.frames + more.frames);
  }

  lemma {:induction false} ScanExtendsFrame<V>(fmt: Format<V>, payload: seq<byte>, tail: seq<byte>, b: seq<byte>, a: seq<byte>)
    requires |payload| <= MAX_FRAME_BYTES && a == Framed(payload) + tail
    ensures Scan(fmt, a + b) == Extended(Scan(fmt, a), Scan(fmt, a[Scan(fmt, a).consumed..] + b))
    decreases |a|, 0
  {
    hide *;
    FrameLonger(payload, tail);
    Regroup(Framed(payload), tail, a, b);
    ScanFrame(fmt, payload, tail);
    ScanFrame(fmt, payload, tail + b);
    match fmt.parse(payload)
    case None => StoppedStays(fmt, a, b);
    case Some(v) =>
      var rest, n := Scan(fmt, tail), |Framed(payload)|;
      DropPast(Framed(payload), tail, rest.consumed, a);
      ScanExtends(fmt, tail, b);
      PrecededConsumes(v, n, rest);
      ExtendPreceded(v, n, rest, Scan(fmt, tail[rest.consumed..] + b));
  }

  lemma FrameLonger(payload: seq<byte>, tail: seq<byte>)
    ensures |tail| < |Framed(payload) + tail|
  {
  }

  lemma PrecededConsumes<V>(v: V, n: nat, rest: Scanned<V>)
    ensures Preceded(v, n, rest).consumed == n + rest.consumed
  {
  }

  lemma StoppedStays<V>(fmt: Format<V>, a: seq<byte>, b: seq<byte>)
    requires Scan(fmt, a).error.Some? && Scan(fmt, a + b) == Scan(fmt, a)
    ensures Scan(fmt, a + b) == Extended(Scan(fmt, a), Scan(fmt, a[Scan(fmt, a).consumed..] + b))
  {
    hide Scan;
  }
}
