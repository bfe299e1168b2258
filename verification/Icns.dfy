/** The ICNS container: the loop that builds it from PNG images, and the check of a finished file. */
module Icns {
  import opened Wrappers
  import opened Bytes

  datatype IcnsError = NotPng | TooLarge | BadHeader | BadSize | TruncatedChunk | BadChunkLength | MissingType

  /** "icns" */
  const MAGIC: seq<byte> := [105, 99, 110, 115]

  const PNG_SIGNATURE: seq<byte> := [0x89, 0x50, 0x4E, 0x47, 0x0D, 0x0A, 0x1A, 0x0A]

  /** icp4, icp5, icp6, ic07, ic08, ic09, ic10 */
  const TYPES: seq<seq<byte>> := [
    [105, 99, 112, 52], [105, 99, 112, 53], [105, 99, 112, 54], [105, 99, 48, 55],
    [105, 99, 48, 56], [105, 99, 48, 57], [105, 99, 49, 48]]

  const REQUIRED: set<seq<byte>> := set t | t in TYPES

  datatype Chunk = Chunk(kind: seq<byte>, data: seq<byte>)
  {
    predicate Valid() {
      |kind| == 4 && |data| + 8 < 0x1_0000_0000
    }
  }

  function ChunkBytes(c: Chunk): seq<byte> {
    c.kind + (ToBE(|c.data| + 8, 4) + c.data)
  }

  function ChunksBytes(chunks: seq<Chunk>): seq<byte> {
    if chunks == [] then [] else ChunkBytes(chunks[0]) + ChunksBytes(chunks[1..])
  }

  function Kinds(chunks: seq<Chunk>): set<seq<byte>> {
    set c | c in chunks :: c.kind
  }

  /** A file that is exactly a header and these chunks, one after the other. */
  predicate IsContainer(data: seq<byte>, chunks: seq<Chunk>) {
    && (forall c | c in chunks :: c.Valid())
    && |data| < 0x1_0000_0000
    && data == MAGIC + ToBE(|data|, 4) + ChunksBytes(chunks)
  }

  // ---------- the writer ----------

  method BuildIcns(images: seq<seq<byte>>) returns (r: Result<seq<byte>, IcnsError>)
    requires |images| == |TYPES|
    ensures r.Ok? <==>
              && (forall i | 0 <= i < |images| :: PNG_SIGNATURE <= images[i])
              && |ChunksBytes(ChunksFor(images))| + 8 < 0x1_0000_0000
    ensures r.Ok? ==> IsContainer(r.value, ChunksFor(images))
  {
    hide ToBE, ChunksBytes, IsContainer;
    var payload: seq<byte> := [];
    ghost var chunks := ChunksFor(images);
    NoChunks();
    for i := 0 to |TYPES|
      invariant forall k | 0 <= k < i :: PNG_SIGNATURE <= images[k] && chunks[k].Valid()
      invariant payload == ChunksBytes(chunks[..i])
    {
      var data := images[i];
      if !(PNG_SIGNATURE <= data) {
        return Err(NotPng);
      }
      if |data| + 8 >= 0x1_0000_0000 {
        PartFits(chunks, i);
        return Err(TooLarge);
      }
      Regroup(payload, TYPES[i], ToBE(|data| + 8, 4), data);
      payload := payload + TYPES[i];
      payload := payload + ToBE(|data| + 8, 4);
      payload := payload + data;
      AppendChunk(chunks[..i], chunks[i]);
      assert chunks[..i + 1] == chunks[..i] + [chunks[i]];
    }
    assert chunks[..|TYPES|] == chunks;
    if |payload| + 8 >= 0x1_0000_0000 {
      return Err(TooLarge);
    }
    r := Ok(MAGIC + ToBE(|payload| + 8, 4) + payload);
    BuiltContainer(r.value, chunks);
  }

  lemma NoChunks()
    ensures ChunksBytes([]) == []
  {
  }

  lemma Regroup(p: seq<byte>, a: seq<byte>, b: seq<byte>, c: seq<byte>)
    ensures p + a + b + c == p + (a + (b + c))
  {
  }

  lemma BuiltContainer(data: seq<byte>, chunks: seq<Chunk>)
    requires forall c | c in chunks :: c.Valid()
    requires |ChunksBytes(chunks)| + 8 < 0x1_0000_0000
    requires data == MAGIC + ToBE(|ChunksBytes(chunks)| + 8, 4) + ChunksBytes(chunks)
    ensures IsContainer(data, chunks)
  {
  }

  function ChunksFor(images: seq<seq<byte>>): (chunks: seq<Chunk>)
    requires |images| == |TYPES|
    ensures |chunks| == |TYPES|
  {
    seq(|TYPES|, i requires 0 <= i < |TYPES| => Chunk(TYPES[i], images[i]))
  }

  lemma {:induction false} AppendChunk(chunks: seq<Chunk>, c: Chunk)
    ensures ChunksBytes(chunks + [c]) == ChunksBytes(chunks) + ChunkBytes(c)
  {
    hide ChunksBytes, ChunkBytes;
    NoChunks();
    FirstChunk(chunks + [c]);
    if chunks == [] {
      assert chunks + [c] == [c] && [c][1..] == [];
      assert ChunkBytes(c) + [] == [] + ChunkBytes(c);
    } else {
      FirstChunk(chunks);
      AppendChunk(chunks[1..], c);
      assert (chunks + [c])[1..] == chunks[1..] + [c];
      Reassociate(ChunkBytes(chunks[0]), ChunksBytes(chunks[1..]), ChunkBytes(c));
    }
  }

  lemma FirstChunk(chunks: seq<Chunk>)
    requires chunks != []
    ensures ChunksBytes(chunks) == ChunkBytes(chunks[0]) + ChunksBytes(chunks[1..])
  {
  }

  lemma Reassociate(a: seq<byte>, b: seq<byte>, c: seq<byte>)
    ensures a + (b + c) == (a + b) + c
  {
  }

  /** No chunk is longer than the whole. */
  lemma {:induction false} PartFits(chunks: seq<Chunk>, i: nat)
    requires i < |chunks|
    ensures |chunks[i].data| + 8 <= |ChunksBytes(chunks)| + 8
  {
    if i > 0 {
      PartFits(chunks[1..], i - 1);
    }
  }

  // ---------- the check ----------

  /** The rest of the file from one chunk header on: the kinds found, or the complaint. */
  function Scan(data: seq<byte>, offset: nat): Result<set<seq<byte>>, IcnsError>
    requires offset <= |data|
    decreases |data| - offset
  {
    if offset >= |data| then Ok({})
    else if offset + 8 > |data| then Err(TruncatedChunk)
    else
      var length := FromBE(data[offset + 4..offset + 8]);
      if length < 8 || offset + length > |data| then Err(BadChunkLength)
      else
        var rest :- Scan(data, offset + length);
        Ok({data[offset..offset + 4]} + rest)
  }

  method VerifyIcns(data: seq<byte>) returns (error: Option<IcnsError>)
    ensures error == None <==> Accepted(data)
  {
    if |data| < 16 || data[..4] != MAGIC {
      return Some(BadHeader);
    }
    var declaredSize := FromBE(data[4..8]);
    if declaredSize != |data| {
      return Some(BadSize);
    }
    var offset := 8;
    var chunks: set<seq<byte>> := {};
    assert Scan(data, 8).Ok? ==> {} + Scan(data, 8).value == Scan(data, 8).value;
    while offset < |data|
      invariant 8 <= offset <= |data|
      invariant var rest := Scan(data, offset);
                Scan(data, 8) == if rest.Ok? then Ok(chunks + rest.value) else rest
    {
      if offset + 8 > |data| {
        return Some(TruncatedChunk);
      }
      var kind := data[offset..offset + 4];
      var length := FromBE(data[offset + 4..offset + 8]);
      if length < 8 || offset + length > |data| {
        return Some(BadChunkLength);
      }
      ghost var rest := Scan(data, offset + length);
      assert rest.Ok? ==> chunks + ({kind} + rest.value) == (chunks + {kind}) + rest.value;
      chunks := chunks + {kind};
      offset := offset + length;
    }
    assert chunks + {} == chunks;
    if !(REQUIRED <= chunks) {
      return Some(MissingType);
    }
    error := None;
  }

  predicate Accepted(data: seq<byte>) {
    && |data| >= 16 && data[..4] == MAGIC && FromBE(data[4..8]) == |data|
    && Scan(data, 8).Ok? && REQUIRED <= Scan(data, 8).value
  }

  // ---------- what acceptance means ----------

  lemma ChunkHead(c: Chunk, tail: seq<byte>)
    requires c.Valid()
    ensures var s := ChunkBytes(c) + tail;
            var n := |c.data| + 8;
            |s| >= n && s[..4] == c.kind && FromBE(s[4..8]) == n && s[8..n] == c.data && s[n..] == tail
            && |ChunkBytes(c)| == n
  {
    Pow256Widths();
    FromToBE(|c.data| + 8, 4);
    var s := ChunkBytes(c) + tail;
    assert s[4..8] == ToBE(|c.data| + 8, 4);
  }

  lemma NoKinds()
    ensures Kinds([]) == {}
  {
  }

  lemma FirstKind(chunks: seq<Chunk>)
    requires chunks != []
    ensures Kinds(chunks) == {chunks[0].kind} + Kinds(chunks[1..])
  {
    assert chunks == [chunks[0]] + chunks[1..];
  }

  /** Scanning a run of chunks at the end of a file finds exactly their kinds. */
  lemma {:induction false} ScanChunks(data: seq<byte>, offset: nat, chunks: seq<Chunk>)
    requires offset <= |data| && data[offset..] == ChunksBytes(chunks)
    requires forall c | c in chunks :: c.Valid()
    ensures Scan(data, offset) == Ok(Kinds(chunks))
    decreases |chunks|
  {
    hide ToBE, FromBE, ChunksBytes, ChunkBytes, Kinds;
    NoChunks();
    if chunks == [] {
      NoKinds();
    } else {
      var c := chunks[0];
      var tail := ChunksBytes(chunks[1..]);
      assert c.Valid();
      ChunkHead(c, tail);
      var s := data[offset..];
      var n := |c.data| + 8;
      FirstChunk(chunks);
      assert data[offset..offset + 4] == s[..4] && data[offset + 4..offset + 8] == s[4..8];
      assert data[offset + n..] == s[n..];
      ScanChunks(data, offset + n, chunks[1..]);
      FirstKind(chunks);
    }
  }

  /** A scan that goes through has read a run of chunks. */
  lemma {:induction false} ScanFindsChunks(data: seq<byte>, offset: nat) returns (chunks: seq<Chunk>)
    requires offset <= |data| < 0x1_0000_0000 && Scan(data, offset).Ok?
    ensures data[offset..] == ChunksBytes(chunks) && (forall c | c in chunks :: c.Valid())
    ensures Scan(data, offset) == Ok(Kinds(chunks))
    decreases |data| - offset
  {
    hide FromBE, ToBE;
    if offset == |data| {
      chunks := [];
      assert Kinds(chunks) == {};
    } else {
      var lengthBytes := data[offset + 4..offset + 8];
      var n := FromBE(lengthBytes);
      var c := Chunk(data[offset..offset + 4], data[offset + 8..offset + n]);
      var more := ScanFindsChunks(data, offset + n);
      chunks := [c] + more;
      ToFromBE(lengthBytes);
      FrontChunk(data, offset, n);
      assert chunks[1..] == more;
      assert chunks[0] == c && c.Valid();
      ScanChunks(data, offset, chunks);
    }
  }

  /** The bytes from one chunk header on are that chunk and the rest. */
  lemma FrontChunk(data: seq<byte>, offset: nat, n: nat)
    requires n >= 8 && offset + n <= |data| && ToBE(n, 4) == data[offset + 4..offset + 8]
    ensures var c := Chunk(data[offset..offset + 4], data[offset + 8..offset + n]);
            data[offset..] == ChunkBytes(c) + data[offset + n..]
  {
    hide ToBE;
    var whole := data[offset..offset + n];
    SliceOf(data, offset, n, 0, 4);
    SliceOf(data, offset, n, 4, 8);
    SliceOf(data, offset, n, 8, n);
    ThreeParts(whole, data[offset..offset + 4], data[offset + 4..offset + 8], data[offset + 8..offset + n]);
    var c := Chunk(data[offset..offset + 4], data[offset + 8..offset + n]);
    assert |c.data| + 8 == n;
    assert ChunkBytes(c) == whole;
    CutAt(data, offset, n);
  }

  lemma SliceOf(data: seq<byte>, offset: nat, n: nat, i: nat, j: nat)
    requires i <= j <= n && offset + n <= |data|
    ensures data[offset..offset + n][i..j] == data[offset + i..offset + j]
  {
    var part, whole := data[offset..offset + n][i..j], data[offset + i..offset + j];
    assert |part| == |whole|;
    forall k | 0 <= k < |part| ensures part[k] == whole[k] {
      assert part[k] == data[offset..offset + n][i + k] == data[offset + i + k];
    }
  }

  lemma CutAt(data: seq<byte>, offset: nat, n: nat)
    requires offset + n <= |data|
    ensures data[offset..] == data[offset..offset + n] + data[offset + n..]
  {
  }

  lemma ThreeParts(s: seq<byte>, a: seq<byte>, b: seq<byte>, c: seq<byte>)
    requires |s| >= 8 && a == s[0..4] && b == s[4..8] && c == s[8..|s|]
    ensures s == a + (b + c)
  {
  }

  /** The check accepts a file if and only if it is a header and a run of chunks with all required kinds. */
  lemma AcceptedExactly(data: seq<byte>)
    ensures Accepted(data) <==>
            exists chunks :: chunks != [] && IsContainer(data, chunks) && REQUIRED <= Kinds(chunks)
  {
    hide Scan, ChunksBytes, FromBE, ToBE;
    Pow256Widths();
    if Accepted(data) {
      var chunks := ScanFindsChunks(data, 8);
      ToFromBE(data[4..8]);
      assert data == data[..4] + data[4..8] + data[8..];
      assert IsContainer(data, chunks);
      assert TYPES[0] in REQUIRED;
      assert chunks != [];
    }
    if exists chunks :: chunks != [] && IsContainer(data, chunks) && REQUIRED <= Kinds(chunks) {
      var chunks :| chunks != [] && IsContainer(data, chunks) && REQUIRED <= Kinds(chunks);
      ContainerAccepted(data, chunks);
    }
  }

  lemma ContainerAccepted(data: seq<byte>, chunks: seq<Chunk>)
    requires chunks != [] && IsContainer(data, chunks) && REQUIRED <= Kinds(chunks)
    ensures Accepted(data)
  {
    hide Scan, FromBE, ToBE;
    Pow256Widths();
    FromToBE(|data|, 4);
    assert data[4..8] == ToBE(|data|, 4) && data[8..] == ChunksBytes(chunks);
    assert chunks[0].Valid();
    assert |ChunkBytes(chunks[0])| >= 8;
    ScanChunks(data, 8, chunks);
  }

  /** The chunks of a file are determined by its bytes. */
  lemma {:induction false} ChunksUnique(a: seq<Chunk>, b: seq<Chunk>)
    requires ChunksBytes(a) == ChunksBytes(b)
    requires (forall c | c in a :: c.Valid()) && (forall c | c in b :: c.Valid())
    ensures a == b
    decreases |a|
  {
    if a != [] {
      assert a[0].Valid();
      ChunkHead(a[0], ChunksBytes(a[1..]));
    }
    if b != [] {
      assert b[0].Valid();
      ChunkHead(b[0], ChunksBytes(b[1..]));
    }
    if a != [] && b != [] {
      assert forall c | c in a[1..] :: c in a;
      assert forall c | c in b[1..] :: c in b;
      ChunksUnique(a[1..], b[1..]);
      assert a == [a[0]] + a[1..] && b == [b[0]] + b[1..];
    }
  }

  /** Whatever the writer builds, the check accepts. */
  lemma WrittenIsAccepted(images: seq<seq<byte>>, data: seq<byte>)
    requires |images| == |TYPES| && IsContainer(data, ChunksFor(images))
    ensures Accepted(data)
  {
    var chunks := ChunksFor(images);
    forall t | t in REQUIRED ensures t in Kinds(chunks) {
      var i :| 0 <= i < |TYPES| && TYPES[i] == t;
      assert chunks[i] in chunks && chunks[i].kind == t;
    }
    ContainerAccepted(data, chunks);
  }
}
