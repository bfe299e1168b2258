/** The byte layout that the handshake signs with HMAC-SHA-256 (section 2 of RFC 2104 stays abstract). */
module HelloProof {
  import opened Wrappers
  import opened Bytes

  datatype Hello = Hello(protocolVersion: int, minCoreVersion: string, clientPid: int, clientNonce: string)

  datatype PackError = OutOfRange

  /** "stet-hello-v1" and a zero byte. */
  const DOMAIN_TAG: seq<byte> := [115, 116, 101, 116, 45, 104, 101, 108, 108, 111, 45, 118, 49, 0]

  predicate Fits32(n: int) {
    0 <= n < 0x1_0000_0000
  }

  ghost predicate Injective(utf8: string -> seq<byte>) {
    forall s, t :: utf8(s) == utf8(t) ==> s == t
  }

  predicate InRange(utf8: string -> seq<byte>, h: Hello) {
    && Fits32(h.protocolVersion) && Fits32(|utf8(h.minCoreVersion)|)
    && Fits32(h.clientPid) && Fits32(|utf8(h.clientNonce)|)
  }

  function Prefixed(text: seq<byte>): seq<byte> {
    ToBE(|text|, 4) + text
  }

  function Layout(utf8: string -> seq<byte>, h: Hello): seq<byte>
    requires InRange(utf8, h)
  {
    DOMAIN_TAG + (ToBE(h.protocolVersion, 4)
      + (Prefixed(utf8(h.minCoreVersion)) + (ToBE(h.clientPid, 4) + Prefixed(utf8(h.clientNonce)))))
  }

  /** A 32-bit big-endian field; numbers outside its range raise. */
  method Pack32(n: int) returns (r: Result<seq<byte>, PackError>)
    ensures r == if Fits32(n) then Ok(ToBE(n, 4)) else Err(OutOfRange)
  {
    if n < 0 || n >= 0x1_0000_0000 {
      return Err(OutOfRange);
    }
    r := Ok(ToBE(n, 4));
  }

  method CanonicalHelloPayload(utf8: string -> seq<byte>, h: Hello) returns (r: Result<seq<byte>, PackError>)
    ensures r == if InRange(utf8, h) then Ok(Layout(utf8, h)) else Err(OutOfRange)
  {
    var payload := DOMAIN_TAG;
    var version := Pack32(h.protocolVersion);
    if version.Err? { return version; }
    payload := payload + version.value;
    var minCore := utf8(h.minCoreVersion);
    var minCoreLength := Pack32(|minCore|);
    if minCoreLength.Err? { return minCoreLength; }
    payload := payload + minCoreLength.value;
    payload := payload + minCore;
    var pid := Pack32(h.clientPid);
    if pid.Err? { return pid; }
    payload := payload + pid.value;
    var nonce := utf8(h.clientNonce);
    var nonceLength := Pack32(|nonce|);
    if nonceLength.Err? { return nonceLength; }
    payload := payload + nonceLength.value;
    payload := payload + nonce;
    assert payload == Layout(utf8, h);
    r := Ok(payload);
  }

  lemma FieldInjective(a: nat, b: nat, s: seq<byte>, t: seq<byte>)
    requires a < 0x1_0000_0000 && b < 0x1_0000_0000
    requires ToBE(a, 4) + s == ToBE(b, 4) + t
    ensures a == b && s == t
  {
    Pow256Widths();
    FromToBE(a, 4);
    FromToBE(b, 4);
    assert (ToBE(a, 4) + s)[..4] == ToBE(a, 4) && (ToBE(a, 4) + s)[4..] == s;
    assert (ToBE(b, 4) + t)[..4] == ToBE(b, 4) && (ToBE(b, 4) + t)[4..] == t;
  }

  /** A length prefix fixes where the text ends, whatever follows it. */
  lemma PrefixedInjective(x: seq<byte>, y: seq<byte>, s: seq<byte>, t: seq<byte>)
    requires |x| < 0x1_0000_0000 && |y| < 0x1_0000_0000
    requires Prefixed(x) + s == Prefixed(y) + t
    ensures x == y && s == t
  {
    assert Prefixed(x) + s == ToBE(|x|, 4) + (x + s);
    assert Prefixed(y) + t == ToBE(|y|, 4) + (y + t);
    FieldInjective(|x|, |y|, x + s, y + t);
    assert (x + s)[..|x|] == x && (x + s)[|x|..] == s;
    assert (y + t)[..|y|] == y && (y + t)[|y|..] == t;
  }

  /** Distinct handshakes never share a byte layout, so a proof never vouches for another handshake. */
  lemma LayoutInjective(utf8: string -> seq<byte>, g: Hello, h: Hello)
    requires Injective(utf8)
    requires InRange(utf8, g) && InRange(utf8, h)
    ensures Layout(utf8, g) == Layout(utf8, h) <==> g == h
  {
    if Layout(utf8, g) == Layout(utf8, h) {
      var nonceG, nonceH := Prefixed(utf8(g.clientNonce)), Prefixed(utf8(h.clientNonce));
      var pidG, pidH := ToBE(g.clientPid, 4) + nonceG, ToBE(h.clientPid, 4) + nonceH;
      var coreG, coreH := Prefixed(utf8(g.minCoreVersion)) + pidG, Prefixed(utf8(h.minCoreVersion)) + pidH;
      var restG, restH := ToBE(g.protocolVersion, 4) + coreG, ToBE(h.protocolVersion, 4) + coreH;
      var n := |DOMAIN_TAG|;
      assert (DOMAIN_TAG + restG)[n..] == restG && (DOMAIN_TAG + restH)[n..] == restH;
      FieldInjective(g.protocolVersion, h.protocolVersion, coreG, coreH);
      PrefixedInjective(utf8(g.minCoreVersion), utf8(h.minCoreVersion), pidG, pidH);
      FieldInjective(g.clientPid, h.clientPid, nonceG, nonceH);
      assert nonceG + [] == nonceH + [];
      PrefixedInjective(utf8(g.clientNonce), utf8(h.clientNonce), [], []);
    }
  }
}
