/**
  The GGUF header reader: what it returns for any file at all, as functions of the bytes and a
  cursor. UTF-8 decoding with replacement is the total function `text`.
*/
module Gguf {
  import opened Wrappers
  import opened Bytes
  import opened Strings

  datatype ReadError = BadMagic | UnexpectedEof | ShortField | Overflow

  /** A metadata value as Python holds it; arrays that are skipped become None. */
  datatype Value =
    | Skipped
    | IntValue(n: int)
    | FloatValue(bits: seq<byte>)
    | BoolValue(b: bool)
    | TextValue(s: string)
    | TextsValue(items: seq<string>)

  /** A read that went through, one after which the enclosing loop is left, or one that raised. */
  datatype Parsed<+T> = Got(value: T, pos: nat) | Break(pos: nat) | Fail(error: ReadError)
  {
    predicate IsFailure() {
      !Got?
    }

    function PropagateFailure<U>(): Parsed<U>
      requires !Got?
    {
      if Break? then Break(pos) else Fail(error)
    }

    function Extract(): (T, nat)
      requires Got?
    {
      (value, pos)
    }
  }

  /** A read that either goes through or raises: the value and the cursor after it. */
  type Reading<T> = Result<(T, nat), ReadError>

  function Raising<T>(r: Reading<T>): Parsed<T> {
    if r.Ok? then Got(r.value.0, r.value.1) else Fail(r.error)
  }

  /** Offsets and lengths beyond this do not convert to a C integer and raise. */
  const MAX_OFFSET: nat := 0x7FFF_FFFF_FFFF_FFFF

  const MAGIC: seq<byte> := [71, 71, 85, 70]

  function Read(file: seq<byte>, pos: nat, n: nat): (data: seq<byte>)
    ensures |data| <= n
  {
    if pos >= |file| then [] else if pos + n <= |file| then file[pos..pos + n] else file[pos..]
  }

  function ScalarWidth(t: nat): Option<nat> {
    if t in {0, 1, 7} then Some(1)
    else if t in {2, 3} then Some(2)
    else if t in {4, 5, 6} then Some(4)
    else if t in {10, 11, 12} then Some(8)
    else None
  }

  /** Unsigned, two's complement, boolean or floating point, as the type number says. */
  function ScalarValue(t: nat, raw: seq<byte>): Value
    requires ScalarWidth(t) == Some(|raw|)
  {
    if t == 7 then BoolValue(raw[0] != 0)
    else if t in {6, 12} then FloatValue(raw)
    else if t in {1, 3, 5, 11} && FromLE(raw) >= Pow256(|raw|) / 2 then IntValue(FromLE(raw) - Pow256(|raw|))
    else IntValue(FromLE(raw))
  }

  function ReadStr(text: seq<byte> -> string, file: seq<byte>, pos: nat): Reading<string> {
    var rawLen := Read(file, pos, 8);
    if |rawLen| < 8 then Err(UnexpectedEof)
    else if FromLE(rawLen) > MAX_OFFSET then Err(Overflow)
    else
      var data := Read(file, pos + 8, FromLE(rawLen));
      Ok((text(data), pos + 8 + |data|))
  }

  function ReadStrs(text: seq<byte> -> string, file: seq<byte>, pos: nat, n: nat): Reading<seq<string>>
    decreases n
  {
    if n == 0 then Ok(([], pos))
    else
      var (s, p) :- ReadStr(text, file, pos);
      var (more, q) :- ReadStrs(text, file, p, n - 1);
      Ok(([s] + more, q))
  }

  /** Moves the cursor without looking at the bytes, past the end of the file if need be. */
  function Seek(pos: nat, n: nat): Reading<Value> {
    if pos + n > MAX_OFFSET then Err(Overflow) else Ok((Skipped, pos + n))
  }

  function SkipStrs(file: seq<byte>, pos: nat, n: nat): (r: Reading<Value>)
    ensures r.Ok? ==> r.value.0 == Skipped
    decreases n
  {
    if n == 0 then Ok((Skipped, pos))
    else
      var rawLen := Read(file, pos, 8);
      if |rawLen| < 8 then Err(ShortField)
      else
        var (_, p) :- Seek(pos + 8, FromLE(rawLen));
        SkipStrs(file, p, n - 1)
  }

  predicate IsVocabulary(key: string) {
    "tokenizer.ggml.tokens" <= key || "tokenizer.ggml.merges" <= key
  }

  function ReadArray(text: seq<byte> -> string, file: seq<byte>, pos: nat, key: string): Parsed<Value> {
    var raw := Read(file, pos, 12);
    if |raw| < 12 then Break(pos + |raw|)
    else
      var elemType, len := FromLE(raw[..4]), FromLE(raw[4..]);
      if elemType == 8 then
        if IsVocabulary(key) then Raising(SkipStrs(file, pos + 12, len))
        else
          var (items, p) :- Raising(ReadStrs(text, file, pos + 12, len));
          Got(TextsValue(items), p)
      else if ScalarWidth(elemType).Some? then Raising(Seek(pos + 12, len * ScalarWidth(elemType).value))
      else Break(pos + 12)
  }

  function ReadValue(text: seq<byte> -> string, file: seq<byte>, pos: nat, key: string, t: nat): Parsed<Value> {
    if t == 8 then
      var (s, p) :- Raising(ReadStr(text, file, pos));
      Got(TextValue(s), p)
    else if ScalarWidth(t).Some? then
      var raw := Read(file, pos, ScalarWidth(t).value);
      if |raw| < ScalarWidth(t).value then Fail(ShortField) else Got(ScalarValue(t, raw), pos + |raw|)
    else if t == 9 then ReadArray(text, file, pos, key)
    else Break(pos)
  }

  /** One key with its value. */
  function ReadEntry(text: seq<byte> -> string, file: seq<byte>, pos: nat): Parsed<(string, Value)> {
    var (key, p) :- Raising(ReadStr(text, file, pos));
    var rawType := Read(file, p, 4);
    if |rawType| < 4 then Break(p + |rawType|)
    else
      var (v, q) :- ReadValue(text, file, p + 4, key, FromLE(rawType));
      Got((key, v), q)
  }

  type Metadata = map<string, Value>

  /** At most n entries, over those in kv; leaving the loop early keeps what was read. */
  function ReadEntries(text: seq<byte> -> string, file: seq<byte>, pos: nat, n: nat, kv: Metadata): Reading<Metadata>
    decreases n
  {
    if n == 0 then Ok((kv, pos))
    else
      match ReadEntry(text, file, pos)
      case Fail(e) => Err(e)
      case Break(p) => Ok((kv, p))
      case Got(entry, p) => ReadEntries(text, file, p, n - 1, kv[entry.0 := entry.1])
  }

  function Lower(s: string): string {
    if s == [] then [] else [if 'A' <= s[0] <= 'Z' then (s[0] as int + 32) as char else s[0]] + Lower(s[1..])
  }

  predicate NamesNextn(name: string) {
    Contains(Lower(name), "nextn")
  }

  /** One tensor record, of which only the name is looked at; Break when it is cut off before or after it. */
  function ReadTensor(text: seq<byte> -> string, file: seq<byte>, pos: nat): Parsed<(bool, bool)> {
    var rawLen := Read(file, pos, 8);
    if |rawLen| < 8 then Break(pos + |rawLen|)
    else if FromLE(rawLen) > MAX_OFFSET then Fail(Overflow)
    else
      var name := Read(file, pos + 8, FromLE(rawLen));
      var p := pos + 8 + |name|;
      var found := NamesNextn(text(name));
      var rawDims := Read(file, p, 4);
      if |rawDims| < 4 then Got((found, false), p + |rawDims|)
      else
        var (_, q) :- Raising(Seek(p + 4, FromLE(rawDims) * 8 + 12));
        Got((found, true), q)
  }

  /** At most n tensor records: whether one of the names counts. */
  function ReadTensors(text: seq<byte> -> string, file: seq<byte>, pos: nat, n: nat, found: bool): Reading<bool>
    decreases n
  {
    if n == 0 then Ok((found, pos))
    else
      match ReadTensor(text, file, pos)
      case Fail(e) => Err(e)
      case Break(p) => Ok((found, p))
      case Got((named, whole), p) =>
        if whole then ReadTensors(text, file, p, n - 1, found || named) else Ok((found || named, p))
  }

  function ReadFile(text: seq<byte> -> string, file: seq<byte>): Result<(Metadata, bool), ReadError> {
    var header := Read(file, 0, 24);
    if |header| < 24 then Err(ShortField)
    else if header[..4] != MAGIC then Err(BadMagic)
    else
      var tensorCount, kvCount := FromLE(header[8..16]), FromLE(header[16..24]);
      var (kv, p) :- ReadEntries(text, file, 24, kvCount, map[]);
      var (found, _) :- ReadTensors(text, file, p, tensorCount, false);
      Ok((kv, found))
  }
}
