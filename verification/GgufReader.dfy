/** The reader itself: a file with a cursor that reads and seeks move, and loops that fill a dictionary. */
module GgufReader {
  import opened Wrappers
  import opened Bytes
  import opened Gguf

  class BinaryFile {
    const data: seq<byte>
    var pos: nat

    constructor (data: seq<byte>)
      ensures this.data == data && pos == 0
    {
      this.data, pos := data, 0;
    }

    /** Up to n bytes; fewer only at the end of the file. */
    method ReadBytes(n: nat) returns (r: seq<byte>)
      modifies this
      ensures r == Read(data, old(pos), n) && pos == old(pos) + |r|
    {
      r := if pos >= |data| then [] else if pos + n <= |data| then data[pos..pos + n] else data[pos..];
      pos := pos + |r|;
    }

    method SeekForward(n: nat) returns (ok: bool)
      modifies this
      ensures ok <==> Seek(old(pos), n).Ok?
      ensures pos == if ok then Seek(old(pos), n).value.1 else old(pos)
    {
      ok := pos + n <= MAX_OFFSET;
      if ok {
        pos := pos + n;
      }
    }
  }

  method ReadString(text: seq<byte> -> string, f: BinaryFile) returns (r: Result<string, ReadError>)
    modifies f
    ensures match ReadStr(text, f.data, old(f.pos))
            case Ok((s, p)) => r == Ok(s) && f.pos == p
            case Err(e) => r == Err(e)
  {
    var rawLen := f.ReadBytes(8);
    if |rawLen| < 8 {
      return Err(UnexpectedEof);
    }
    var len := FromLE(rawLen);
    if len > MAX_OFFSET {
      return Err(Overflow);
    }
    var data := f.ReadBytes(len);
    r := Ok(text(data));
  }

  function After(items: seq<string>, rest: Reading<seq<string>>): Reading<seq<string>> {
    if rest.Ok? then Ok((items + rest.value.0, rest.value.1)) else rest
  }

  lemma NoStrs(text: seq<byte> -> string, file: seq<byte>)
    ensures forall pos: nat :: ReadStrs(text, file, pos, 0) == Ok(([], pos))
  {
  }

  lemma StrsStep(text: seq<byte> -> string, file: seq<byte>, pos: nat, n: nat, items: seq<string>)
    requires n > 0
    ensures After(items, ReadStrs(text, file, pos, n)) ==
            match ReadStr(text, file, pos)
            case Err(e) => Err(e)
            case Ok((s, p)) => After(items + [s], ReadStrs(text, file, p, n - 1))
  {
    hide ReadStr;
    var first := ReadStr(text, file, pos);
    if first.Ok? {
      var more := ReadStrs(text, file, first.value.1, n - 1);
      if more.Ok? {
        assert items + ([first.value.0] + more.value.0) == (items + [first.value.0]) + more.value.0;
      }
    }
  }

  /** The list comprehension over an array of strings. */
  method ReadStringArray(text: seq<byte> -> string, f: BinaryFile, n: nat) returns (r: Result<seq<string>, ReadError>)
    modifies f
    ensures match ReadStrs(text, f.data, old(f.pos), n)
            case Ok((items, p)) => r == Ok(items) && f.pos == p
            case Err(e) => r == Err(e)
  {
    hide ReadStr, ReadStrs, Read, FromLE;
    var items: seq<string> := [];
    var i := 0;
    ghost var whole := ReadStrs(text, f.data, f.pos, n);
    assert whole.Ok? ==> [] + whole.value.0 == whole.value.0;
    NoStrs(text, f.data);
    while i < n
      invariant i <= n
      invariant whole == After(items, ReadStrs(text, f.data, f.pos, n - i))
    {
      ghost var before := f.pos;
      var s := ReadString(text, f);
      StrsStep(text, f.data, before, n - i, items);
      if s.Err? {
        return Err(s.error);
      }
      items := items + [s.value];
      i := i + 1;
    }
    assert items + [] == items;
    r := Ok(items);
  }

  /** Skips a vocabulary without decoding its strings. */
  method SkipStringArray(f: BinaryFile, n: nat) returns (error: Option<ReadError>)
    modifies f
    ensures match SkipStrs(f.data, old(f.pos), n)
            case Ok((_, p)) => error == None && f.pos == p
            case Err(e) => error == Some(e)
  {
    hide FromLE;
    var i := 0;
    ghost var whole := SkipStrs(f.data, f.pos, n);
    while i < n
      invariant i <= n
      invariant whole == SkipStrs(f.data, f.pos, n - i)
    {
      var rawLen := f.ReadBytes(8);
      if |rawLen| < 8 {
        return Some(ShortField);
      }
      var ok := f.SeekForward(FromLE(rawLen));
      if !ok {
        return Some(Overflow);
      }
      i := i + 1;
    }
    error := None;
  }

  /** The array branch; a Break carries the cursor at which the entry loop was left. */
  method ReadArrayValue(text: seq<byte> -> string, f: BinaryFile, key: string) returns (r: Parsed<Value>)
    modifies f
    ensures r == ReadArray(text, f.data, old(f.pos), key)
    ensures !r.Fail? ==> f.pos == r.pos
  {
    hide FromLE, SkipStrs, ReadStrs, IsVocabulary;
    var rawArray := f.ReadBytes(12);
    if |rawArray| < 12 {
      return Break(f.pos);
    }
    var elemType, len := FromLE(rawArray[..4]), FromLE(rawArray[4..]);
    if elemType == 8 {
      if IsVocabulary(key) {
        var error := SkipStringArray(f, len);
        return if error.Some? then Fail(error.value) else Got(Skipped, f.pos);
      }
      var items := ReadStringArray(text, f, len);
      return if items.Err? then Fail(items.error) else Got(TextsValue(items.value), f.pos);
    }
    var width := ScalarWidth(elemType);
    if width == None {
      return Break(f.pos);
    }
    var ok := f.SeekForward(len * width.value);
    r := if ok then Got(Skipped, f.pos) else Fail(Overflow);
  }

  method ReadMetadataValue(text: seq<byte> -> string, f: BinaryFile, key: string, valueType: nat)
    returns (r: Parsed<Value>)
    modifies f
    ensures r == ReadValue(text, f.data, old(f.pos), key, valueType)
    ensures !r.Fail? ==> f.pos == r.pos
  {
    hide FromLE, ReadStr, ReadArray;
    if valueType == 8 {
      var s := ReadString(text, f);
      return if s.Err? then Fail(s.error) else Got(TextValue(s.value), f.pos);
    }
    var width := ScalarWidth(valueType);
    if width.Some? {
      var raw := f.ReadBytes(width.value);
      if |raw| < width.value {
        return Fail(ShortField);
      }
      return Got(ScalarValue(valueType, raw), f.pos);
    }
    if valueType == 9 {
      r := ReadArrayValue(text, f, key);
      return;
    }
    r := Break(f.pos);
  }

  method ReadMetadataEntry(text: seq<byte> -> string, f: BinaryFile) returns (r: Parsed<(string, Value)>)
    modifies f
    ensures r == ReadEntry(text, f.data, old(f.pos))
    ensures !r.Fail? ==> f.pos == r.pos
  {
    hide FromLE, ReadValue, ReadStr;
    var key := ReadString(text, f);
    if key.Err? {
      return Fail(key.error);
    }
    var rawType := f.ReadBytes(4);
    if |rawType| < 4 {
      return Break(f.pos);
    }
    var value := ReadMetadataValue(text, f, key.value, FromLE(rawType));
    r := match value
      case Fail(e) => Fail(e)
      case Break(p) => Break(p)
      case Got(v, p) => Got((key.value, v), p);
  }

  /** The metadata loop: a Break leaves it, and a key seen again overwrites its earlier value. */
  method ReadAllEntries(text: seq<byte> -> string, f: BinaryFile, kvCount: nat) returns (r: Result<Metadata, ReadError>)
    modifies f
    ensures match ReadEntries(text, f.data, old(f.pos), kvCount, map[])
            case Ok((kv, p)) => r == Ok(kv) && f.pos == p
            case Err(e) => r == Err(e)
  {
    hide ReadEntry;
    var kv: Metadata := map[];
    var i := 0;
    ghost var whole := ReadEntries(text, f.data, f.pos, kvCount, map[]);
    while i < kvCount
      invariant i <= kvCount
      invariant whole == ReadEntries(text, f.data, f.pos, kvCount - i, kv)
    {
      var entry := ReadMetadataEntry(text, f);
      match entry {
        case Fail(e) => return Err(e);
        case Break(_) => return Ok(kv);
        case Got((key, value), _) => kv := kv[key := value];
      }
      i := i + 1;
    }
    r := Ok(kv);
  }

  /** One tensor record: whether its name counts, and whether the record was all there. */
  method ReadTensorRecord(text: seq<byte> -> string, f: BinaryFile) returns (r: Parsed<(bool, bool)>)
    modifies f
    ensures r == ReadTensor(text, f.data, old(f.pos))
    ensures !r.Fail? ==> f.pos == r.pos
  {
    hide FromLE, NamesNextn;
    var rawLen := f.ReadBytes(8);
    if |rawLen| < 8 {
      return Break(f.pos);
    }
    var len := FromLE(rawLen);
    if len > MAX_OFFSET {
      return Fail(Overflow);
    }
    var name := f.ReadBytes(len);
    var found := NamesNextn(text(name));
    var rawDims := f.ReadBytes(4);
    if |rawDims| < 4 {
      return Got((found, false), f.pos);
    }
    var ok := f.SeekForward(FromLE(rawDims) * 8 + 12);
    r := if ok then Got((found, true), f.pos) else Fail(Overflow);
  }

  /** The tensor loop, over names only. */
  method ScanTensorNames(text: seq<byte> -> string, f: BinaryFile, tensorCount: nat) returns (r: Result<bool, ReadError>)
    modifies f
    ensures match ReadTensors(text, f.data, old(f.pos), tensorCount, false)
            case Ok((found, p)) => r == Ok(found) && f.pos == p
            case Err(e) => r == Err(e)
  {
    hide ReadTensor;
    var found := false;
    var i := 0;
    ghost var whole := ReadTensors(text, f.data, f.pos, tensorCount, false);
    while i < tensorCount
      invariant i <= tensorCount
      invariant whole == ReadTensors(text, f.data, f.pos, tensorCount - i, found)
    {
      var record := ReadTensorRecord(text, f);
      match record {
        case Fail(e) => return Err(e);
        case Break(_) => return Ok(found);
        case Got((named, complete), _) =>
          found := found || named;
          if !complete {
            return Ok(found);
          }
      }
      i := i + 1;
    }
    r := Ok(found);
  }

  method ReadGgufBinary(text: seq<byte> -> string, file: seq<byte>) returns (r: Result<(Metadata, bool), ReadError>)
    ensures r == ReadFile(text, file)
  {
    hide FromLE, ReadEntries, ReadTensors;
    var f := new BinaryFile(file);
    var header := f.ReadBytes(24);
    if |header| < 24 {
      return Err(ShortField);
    }
    if header[..4] != MAGIC {
      return Err(BadMagic);
    }
    var tensorCount, kvCount := FromLE(header[8..16]), FromLE(header[16..24]);
    var kv := ReadAllEntries(text, f, kvCount);
    if kv.Err? {
      return Err(kv.error);
    }
    var found := ScanTensorNames(text, f, tensorCount);
    if found.Err? {
      return Err(found.error);
    }
    r := Ok((kv.value, found.value));
  }
}
