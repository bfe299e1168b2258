/**
  Well-formed GGUF headers as the format specification lays them out (section "File Structure"),
  and what the reader makes of them.
*/
module GgufFormat {
  import opened Wrappers
  import opened Bytes
  import opened Gguf

  datatype Metavalue =
    | Scalar(t: nat, raw: seq<byte>)
    | Str(s: seq<byte>)
    | ScalarArray(t: nat, elems: seq<seq<byte>>)
    | StrArray(items: seq<seq<byte>>)
  {
    predicate Valid() {
      match this
      case Scalar(t, raw) => ScalarWidth(t) == Some(|raw|)
      case Str(_) => true
      case ScalarArray(t, elems) => && ScalarWidth(t).Some? && |elems| < Pow256(8)
                                    && forall e | e in elems :: |e| == ScalarWidth(t).value
      case StrArray(items) => |items| < Pow256(8)
    }

    function Tag(): nat {
      match this
      case Scalar(t, _) => t
      case Str(_) => 8
      case _ => 9
    }
  }

  datatype Entry = Entry(key: seq<byte>, value: Metavalue)

  datatype Tensor = Tensor(name: seq<byte>, dims: seq<nat>, elemType: nat, offset: nat)

  datatype Header = Header(version: nat, entries: seq<Entry>, tensors: seq<Tensor>)
  {
    predicate Valid() {
      && |entries| < Pow256(8) && |tensors| < Pow256(8)
      && (forall e | e in entries :: e.value.Valid())
      && (forall t | t in tensors :: |t.dims| < Pow256(4))
    }
  }

  function StrBytes(s: seq<byte>): seq<byte> {
    ToLE(|s|, 8) + s
  }

  function StrsBytes(items: seq<seq<byte>>): seq<byte> {
    if items == [] then [] else StrBytes(items[0]) + StrsBytes(items[1..])
  }

  function ValueBytes(v: Metavalue): seq<byte> {
    match v
    case Scalar(_, raw) => raw
    case Str(s) => StrBytes(s)
    case ScalarArray(t, elems) => (ToLE(t, 4) + ToLE(|elems|, 8)) + Concat(elems)
    case StrArray(items) => (ToLE(8, 4) + ToLE(|items|, 8)) + StrsBytes(items)
  }

  function EntryBytes(e: Entry): seq<byte> {
    StrBytes(e.key) + (ToLE(e.value.Tag(), 4) + ValueBytes(e.value))
  }

  function EntriesBytes(entries: seq<Entry>): seq<byte> {
    if entries == [] then [] else EntryBytes(entries[0]) + EntriesBytes(entries[1..])
  }

  function DimsBytes(dims: seq<nat>): (s: seq<byte>)
    ensures |s| == 8 * |dims|
  {
    if dims == [] then [] else ToLE(dims[0], 8) + DimsBytes(dims[1..])
  }

  function TensorBytes(t: Tensor): seq<byte> {
    StrBytes(t.name) + (ToLE(|t.dims|, 4) + (DimsBytes(t.dims) + (ToLE(t.elemType, 4) + ToLE(t.offset, 8))))
  }

  function TensorsBytes(tensors: seq<Tensor>): seq<byte> {
    if tensors == [] then [] else TensorBytes(tensors[0]) + TensorsBytes(tensors[1..])
  }

  function HeaderBytes(h: Header): seq<byte> {
    (MAGIC + (ToLE(h.version, 4) + (ToLE(|h.tensors|, 8) + ToLE(|h.entries|, 8))))
      + (EntriesBytes(h.entries) + TensorsBytes(h.tensors))
  }

  // ---------- what the reader should return ----------

  function TextOf(text: seq<byte> -> string, items: seq<seq<byte>>): seq<string> {
    seq(|items|, i requires 0 <= i < |items| => text(items[i]))
  }

  /** Numbers and strings as stored; arrays of strings in full, except vocabularies; other arrays not at all. */
  function ValueOf(text: seq<byte> -> string, key: string, v: Metavalue): Value
    requires v.Valid()
  {
    match v
    case Scalar(t, raw) => ScalarValue(t, raw)
    case Str(s) => TextValue(text(s))
    case ScalarArray(_, _) => Skipped
    case StrArray(items) => if IsVocabulary(key) then Skipped else TextsValue(TextOf(text, items))
  }

  /** The dictionary over kv: for each key the value of its last entry. */
  function DictOf(text: seq<byte> -> string, entries: seq<Entry>, kv: Metadata): Metadata
    requires forall e | e in entries :: e.value.Valid()
  {
    if entries == [] then kv
    else
      var key := text(entries[0].key);
      assert entries[0].value.Valid();
      DictOf(text, entries[1..], kv[key := ValueOf(text, key, entries[0].value)])
  }

  predicate HasNextn(text: seq<byte> -> string, tensors: seq<Tensor>) {
    exists t :: t in tensors && NamesNextn(text(t.name))
  }

  // ---------- bytes at a place in a file ----------

  predicate At(file: seq<byte>, pos: nat, x: seq<byte>) {
    pos + |x| <= |file| && file[pos..pos + |x|] == x
  }

  lemma AtSplit(file: seq<byte>, pos: nat, x: seq<byte>, y: seq<byte>)
    requires At(file, pos, x + y)
    ensures At(file, pos, x) && At(file, pos + |x|, y)
  {
    assert file[pos..pos + |x + y|][..|x|] == x;
    assert file[pos..pos + |x + y|][|x|..] == y;
  }

  lemma NumberAt(file: seq<byte>, pos: nat, n: nat, k: nat)
    requires At(file, pos, ToLE(n, k)) && n < Pow256(k)
    ensures var raw := Read(file, pos, k); |raw| == k && FromLE(raw) == n
  {
    FromToLE(n, k);
  }

  lemma StrAt(text: seq<byte> -> string, file: seq<byte>, pos: nat, s: seq<byte>)
    requires |file| <= MAX_OFFSET && At(file, pos, StrBytes(s))
    ensures ReadStr(text, file, pos) == Ok((text(s), pos + |StrBytes(s)|))
    ensures var rawLen := Read(file, pos, 8);
            |rawLen| == 8 && FromLE(rawLen) == |s| && Read(file, pos + 8, |s|) == s
  {
    Pow256Widths();
    AtSplit(file, pos, ToLE(|s|, 8), s);
    NumberAt(file, pos, |s|, 8);
  }

  lemma {:induction false} StrsAt(text: seq<byte> -> string, file: seq<byte>, pos: nat, items: seq<seq<byte>>)
    requires |file| <= MAX_OFFSET && At(file, pos, StrsBytes(items))
    ensures ReadStrs(text, file, pos, |items|) == Ok((TextOf(text, items), pos + |StrsBytes(items)|))
    ensures SkipStrs(file, pos, |items|) == Ok((Skipped, pos + |StrsBytes(items)|))
    decreases |items|
  {
    hide ToLE, FromLE, Read, ReadStr, At;
    if items == [] {
      assert TextOf(text, items) == [];
    } else {
      var first := StrBytes(items[0]);
      AtSplit(file, pos, first, StrsBytes(items[1..]));
      StrAt(text, file, pos, items[0]);
      StrsAt(text, file, pos + |first|, items[1..]);
      assert TextOf(text, items) == [text(items[0])] + TextOf(text, items[1..]);
    }
  }

  lemma TimesStep(n: nat, w: nat)
    requires n > 0
    ensures n * w == w + (n - 1) * w
  {
  }

  lemma {:induction false} ConcatWidth(elems: seq<seq<byte>>, w: nat)
    requires forall e | e in elems :: |e| == w
    ensures |Concat(elems)| == |elems| * w
  {
    if elems != [] {
      assert elems[0] in elems;
      forall e | e in elems[1..] ensures |e| == w {
        assert e in elems;
      }
      ConcatWidth(elems[1..], w);
      TimesStep(|elems|, w);
    }
  }

  lemma ArrayHeadAt(file: seq<byte>, pos: nat, t: nat, n: nat)
    requires t < Pow256(4) && n < Pow256(8)
    requires At(file, pos, ToLE(t, 4) + ToLE(n, 8))
    ensures var raw := Read(file, pos, 12); |raw| == 12 && FromLE(raw[..4]) == t && FromLE(raw[4..]) == n
  {
    var raw := Read(file, pos, 12);
    assert raw == ToLE(t, 4) + ToLE(n, 8);
    assert raw[..4] == ToLE(t, 4) && raw[4..] == ToLE(n, 8);
    FromToLE(t, 4);
    FromToLE(n, 8);
  }

  lemma ArrayAt(text: seq<byte> -> string, file: seq<byte>, pos: nat, key: string, v: Metavalue)
    requires |file| <= MAX_OFFSET && v.Valid() && v.Tag() == 9 && (v.ScalarArray? || v.StrArray?)
    requires At(file, pos, ValueBytes(v))
    ensures ReadArray(text, file, pos, key) == Got(ValueOf(text, key, v), pos + |ValueBytes(v)|)
  {
    hide ToLE, FromLE, Read, SkipStrs, ReadStrs, StrsBytes, Concat, At, Pow256, IsVocabulary;
    Pow256Widths();
    match v
    case ScalarArray(t, elems) =>
      AtSplit(file, pos, ToLE(t, 4) + ToLE(|elems|, 8), Concat(elems));
      ArrayHeadAt(file, pos, t, |elems|);
      ConcatWidth(elems, ScalarWidth(t).value);
    case StrArray(items) =>
      AtSplit(file, pos, ToLE(8, 4) + ToLE(|items|, 8), StrsBytes(items));
      ArrayHeadAt(file, pos, 8, |items|);
      StrsAt(text, file, pos + 12, items);
  }

  lemma ScalarAt(text: seq<byte> -> string, file: seq<byte>, pos: nat, key: string, t: nat, raw: seq<byte>)
    requires ScalarWidth(t) == Some(|raw|) && At(file, pos, raw)
    ensures ReadValue(text, file, pos, key, t) == Got(ScalarValue(t, raw), pos + |raw|)
  {
    hide ScalarValue, FromLE, ReadStr, ReadArray;
    assert Read(file, pos, |raw|) == raw;
  }

  lemma ValueAt(text: seq<byte> -> string, file: seq<byte>, pos: nat, key: string, v: Metavalue)
    requires |file| <= MAX_OFFSET && v.Valid() && At(file, pos, ValueBytes(v))
    ensures ReadValue(text, file, pos, key, v.Tag()) == Got(ValueOf(text, key, v), pos + |ValueBytes(v)|)
  {
    hide ToLE, FromLE, Read, ReadArray, ReadStr, StrBytes, StrsBytes, Concat, ScalarValue, At, IsVocabulary;
    match v
    case Scalar(t, raw) => ScalarAt(text, file, pos, key, t, raw);
    case Str(s) => StrAt(text, file, pos, s);
    case _ => ArrayAt(text, file, pos, key, v);
  }

  lemma EntryAt(text: seq<byte> -> string, file: seq<byte>, pos: nat, e: Entry)
    requires |file| <= MAX_OFFSET && e.value.Valid() && At(file, pos, EntryBytes(e))
    ensures var key := text(e.key);
            ReadEntry(text, file, pos) == Got((key, ValueOf(text, key, e.value)), pos + |EntryBytes(e)|)
  {
    hide ToLE, FromLE, Read, ReadStr, ReadValue, ValueBytes, ValueOf, At;
    Pow256Widths();
    var tag := ToLE(e.value.Tag(), 4);
    AtSplit(file, pos, StrBytes(e.key), tag + ValueBytes(e.value));
    AtSplit(file, pos + |StrBytes(e.key)|, tag, ValueBytes(e.value));
    StrAt(text, file, pos, e.key);
    NumberAt(file, pos + |StrBytes(e.key)|, e.value.Tag(), 4);
    ValueAt(text, file, pos + |StrBytes(e.key)| + 4, text(e.key), e.value);
  }

  lemma NoEntries(text: seq<byte> -> string, file: seq<byte>, pos: nat, kv: Metadata)
    ensures ReadEntries(text, file, pos, 0, kv) == Ok((kv, pos))
  {
  }

  /** n entries or more: the first ones are read, and the loop goes on after them. */
  lemma {:induction false} EntriesAt(text: seq<byte> -> string, file: seq<byte>, pos: nat, entries: seq<Entry>, n: nat, kv: Metadata)
    requires |file| <= MAX_OFFSET && At(file, pos, EntriesBytes(entries))
    requires |entries| <= n && forall e | e in entries :: e.value.Valid()
    ensures ReadEntries(text, file, pos, n, kv) ==
            ReadEntries(text, file, pos + |EntriesBytes(entries)|, n - |entries|, DictOf(text, entries, kv))
    decreases |entries|
  {
    hide ToLE, FromLE, Read, ReadEntry, EntryBytes, ValueOf, At, Metavalue.Valid;
    if entries != [] {
      var e := entries[0];
      assert e.value.Valid();
      AtSplit(file, pos, EntryBytes(e), EntriesBytes(entries[1..]));
      EntryAt(text, file, pos, e);
      var kv' := kv[text(e.key) := ValueOf(text, text(e.key), e.value)];
      EntriesAt(text, file, pos + |EntryBytes(e)|, entries[1..], n - 1, kv');
    }
  }

  lemma TensorAt(text: seq<byte> -> string, file: seq<byte>, pos: nat, t: Tensor)
    requires |file| <= MAX_OFFSET && |t.dims| < Pow256(4) && At(file, pos, TensorBytes(t))
    ensures ReadTensor(text, file, pos) == Got((NamesNextn(text(t.name)), true), pos + |TensorBytes(t)|)
  {
    hide ToLE, FromLE, Read, ReadStr, NamesNextn, At;
    var count := ToLE(|t.dims|, 4);
    var rest := DimsBytes(t.dims) + (ToLE(t.elemType, 4) + ToLE(t.offset, 8));
    AtSplit(file, pos, StrBytes(t.name), count + rest);
    var p := pos + |StrBytes(t.name)|;
    AtSplit(file, p, count, rest);
    StrAt(text, file, pos, t.name);
    NumberAt(file, p, |t.dims|, 4);
    assert |rest| == 8 * |t.dims| + 12;
  }

  lemma {:induction false} TensorsAt(text: seq<byte> -> string, file: seq<byte>, pos: nat, tensors: seq<Tensor>, found: bool)
    requires |file| <= MAX_OFFSET && At(file, pos, TensorsBytes(tensors))
    requires forall t | t in tensors :: |t.dims| < Pow256(4)
    ensures ReadTensors(text, file, pos, |tensors|, found) ==
            Ok((found || HasNextn(text, tensors), pos + |TensorsBytes(tensors)|))
    decreases |tensors|
  {
    hide ToLE, FromLE, Read, ReadTensor, TensorBytes, NamesNextn, At;
    if tensors != [] {
      var t := tensors[0];
      assert t in tensors;
      AtSplit(file, pos, TensorBytes(t), TensorsBytes(tensors[1..]));
      TensorAt(text, file, pos, t);
      TensorsAt(text, file, pos + |TensorBytes(t)|, tensors[1..], found || NamesNextn(text(t.name)));
      assert HasNextn(text, tensors) <==> NamesNextn(text(t.name)) || HasNextn(text, tensors[1..]);
    }
  }

  lemma HeadAt(file: seq<byte>, h: Header)
    requires h.Valid() && At(file, 0, HeaderBytes(h))
    ensures var head := Read(file, 0, 24);
            && |head| == 24 && head[..4] == MAGIC
            && FromLE(head[8..16]) == |h.tensors| && FromLE(head[16..24]) == |h.entries|
    ensures At(file, 24, EntriesBytes(h.entries))
    ensures At(file, 24 + |EntriesBytes(h.entries)|, TensorsBytes(h.tensors))
  {
    hide ToLE, FromLE, EntriesBytes, TensorsBytes;
    var tensorCount, kvCount := ToLE(|h.tensors|, 8), ToLE(|h.entries|, 8);
    var fixed := MAGIC + (ToLE(h.version, 4) + (tensorCount + kvCount));
    AtSplit(file, 0, fixed, EntriesBytes(h.entries) + TensorsBytes(h.tensors));
    AtSplit(file, 24, EntriesBytes(h.entries), TensorsBytes(h.tensors));
    var head := Read(file, 0, 24);
    assert head == fixed;
    assert head[8..16] == tensorCount && head[16..24] == kvCount;
    FromToLE(|h.tensors|, 8);
    FromToLE(|h.entries|, 8);
  }

  /**
    A file that starts with a well-formed header without nested arrays, whatever tensor data
    follows: the reader returns exactly its dictionary, and true if and only if a tensor counts.
  */
  lemma ReadsHeader(text: seq<byte> -> string, file: seq<byte>, h: Header)
    requires h.Valid() && |file| <= MAX_OFFSET && At(file, 0, HeaderBytes(h))
    ensures ReadFile(text, file) == Ok((DictOf(text, h.entries, map[]), HasNextn(text, h.tensors)))
  {
    hide ReadEntries, ReadTensors, DictOf, EntriesBytes, TensorsBytes, HeaderBytes, At, HasNextn, FromLE, Metavalue.Valid, Pow256;
    HeadAt(file, h);
    EntriesAt(text, file, 24, h.entries, |h.entries|, map[]);
    NoEntries(text, file, 24 + |EntriesBytes(h.entries)|, DictOf(text, h.entries, map[]));
    TensorsAt(text, file, 24 + |EntriesBytes(h.entries)|, h.tensors, false);
  }

  /** The dictionary holds exactly the keys that occur, each with the value of its last occurrence. */
  lemma {:induction false} DictMeaning(text: seq<byte> -> string, entries: seq<Entry>, kv: Metadata, key: string)
    requires forall e | e in entries :: e.value.Valid()
    ensures var d := DictOf(text, entries, kv);
            if exists e :: e in entries && text(e.key) == key then
              && key in d
              && exists i :: 0 <= i < |entries| && text(entries[i].key) == key
                             && d[key] == ValueOf(text, key, entries[i].value)
                             && forall j | i < j < |entries| :: text(entries[j].key) != key
            else
              (key in d <==> key in kv) && (key in d ==> d[key] == kv[key])
    decreases |entries|
  {
    hide ValueOf, Metavalue.Valid;
    if entries != [] {
      var e := entries[0];
      assert e.value.Valid();
      var tail := entries[1..];
      var kv' := kv[text(e.key) := ValueOf(text, text(e.key), e.value)];
      DictMeaning(text, tail, kv', key);
      if exists x :: x in tail && text(x.key) == key {
        var i :| 0 <= i < |tail| && text(tail[i].key) == key
                 && DictOf(text, tail, kv')[key] == ValueOf(text, key, tail[i].value)
                 && forall j | i < j < |tail| :: text(tail[j].key) != key;
        assert entries[i + 1] == tail[i];
        assert forall j | i + 1 < j < |entries| :: entries[j] == tail[j - 1];
      } else {
        assert forall j | 0 < j < |entries| :: entries[j] == tail[j - 1] && tail[j - 1] in tail;
        assert forall x | x in entries :: x == e || x in tail;
      }
    }
  }

  function NestedArrayBytes(key: seq<byte>, len: nat): seq<byte> {
    StrBytes(key) + (ToLE(9, 4) + (ToLE(9, 4) + ToLE(len, 8)))
  }

  lemma NestedArrayAt(text: seq<byte> -> string, file: seq<byte>, pos: nat, key: seq<byte>, len: nat)
    requires |file| <= MAX_OFFSET && len < Pow256(8)
    requires At(file, pos, NestedArrayBytes(key, len))
    ensures ReadEntry(text, file, pos) == Break(pos + |NestedArrayBytes(key, len)|)
  {
    hide ToLE, FromLE, Read, ReadStr, At;
    Pow256Widths();
    var head := ToLE(9, 4) + ToLE(len, 8);
    AtSplit(file, pos, StrBytes(key), ToLE(9, 4) + head);
    var q := pos + |StrBytes(key)|;
    AtSplit(file, q, ToLE(9, 4), head);
    StrAt(text, file, pos, key);
    NumberAt(file, q, 9, 4);
    ArrayHeadAt(file, q + 4, 9, len);
  }

  /** An array of arrays ends the metadata loop right behind its head: no entry from it on is read. */
  lemma NestedArrayStops(text: seq<byte> -> string, file: seq<byte>, pos: nat, before: seq<Entry>, key: seq<byte>, len: nat, n: nat)
    requires |file| <= MAX_OFFSET && len < Pow256(8) && |before| < n
    requires forall e | e in before :: e.value.Valid()
    requires At(file, pos, EntriesBytes(before) + NestedArrayBytes(key, len))
    ensures ReadEntries(text, file, pos, n, map[])
         == Ok((DictOf(text, before, map[]), pos + |EntriesBytes(before)| + |NestedArrayBytes(key, len)|))
  {
    hide ToLE, FromLE, Read, ReadEntry, EntriesBytes, NestedArrayBytes, At, Metavalue.Valid, DictOf;
    AtSplit(file, pos, EntriesBytes(before), NestedArrayBytes(key, len));
    EntriesAt(text, file, pos, before, n, map[]);
    NestedArrayAt(text, file, pos + |EntriesBytes(before)|, key, len);
  }

  /**
    And the tensor scan then takes the elements of that array, and whatever follows them, for tensor records: such a
    file gives the entries before the array and what the scan makes of the bytes behind its head.
  */
  lemma NestedArrayMisleads(text: seq<byte> -> string, file: seq<byte>, before: seq<Entry>, key: seq<byte>, len: nat)
    requires |file| <= MAX_OFFSET && len < Pow256(8) && forall e | e in before :: e.value.Valid()
    requires var head := Read(file, 0, 24);
             |head| == 24 && head[..4] == MAGIC && FromLE(head[16..24]) > |before|
    requires At(file, 24, EntriesBytes(before) + NestedArrayBytes(key, len))
    ensures var behind := 24 + |EntriesBytes(before)| + |NestedArrayBytes(key, len)|;
            ReadFile(text, file) == match ReadTensors(text, file, behind, FromLE(Read(file, 0, 24)[8..16]), false)
                                    case Ok((found, _)) => Ok((DictOf(text, before, map[]), found))
                                    case Err(e) => Err(e)
  {
    hide ReadEntries, ReadTensors, DictOf, EntriesBytes, NestedArrayBytes, At, FromLE, Metavalue.Valid, Pow256, Read;
    NestedArrayStops(text, file, 24, before, key, len, FromLE(Read(file, 0, 24)[16..24]));
  }

  // ---------- skipping against decoding ----------

  /** Where a decoder that looks at every element ends up; None when some element is not all there. */
  function DecodeEach(file: seq<byte>, pos: nat, t: nat, n: nat): Option<nat>
    requires t == 8 || ScalarWidth(t).Some?
    decreases n
  {
    if n == 0 then Some(pos)
    else if t == 8 then
      var rawLen := Read(file, pos, 8);
      if |rawLen| < 8 || |Read(file, pos + 8, FromLE(rawLen))| < FromLE(rawLen) then None
      else DecodeEach(file, pos + 8 + FromLE(rawLen), t, n - 1)
    else
      var w := ScalarWidth(t).value;
      if |Read(file, pos, w)| < w then None else DecodeEach(file, pos + w, t, n - 1)
  }

  /** What the reader does instead. */
  function SkipEach(file: seq<byte>, pos: nat, t: nat, n: nat): Reading<Value>
    requires t == 8 || ScalarWidth(t).Some?
  {
    if t == 8 then SkipStrs(file, pos, n) else Seek(pos, n * ScalarWidth(t).value)
  }

  lemma {:induction false} SkipStrsForward(file: seq<byte>, pos: nat, n: nat)
    ensures SkipStrs(file, pos, n).Ok? ==> SkipStrs(file, pos, n).value.1 >= pos
    decreases n
  {
    if n > 0 {
      var rawLen := Read(file, pos, 8);
      if |rawLen| == 8 && Seek(pos + 8, FromLE(rawLen)).Ok? {
        SkipStrsForward(file, pos + 8 + FromLE(rawLen), n - 1);
      }
    }
  }

  lemma {:induction false} SkipScalarsMatch(file: seq<byte>, pos: nat, t: nat, n: nat, p: nat)
    requires |file| <= MAX_OFFSET && pos <= |file| && ScalarWidth(t).Some?
    ensures DecodeEach(file, pos, t, n) == Some(p) <==> p == pos + n * ScalarWidth(t).value && p <= |file|
    decreases n
  {
    if n > 0 {
      var w := ScalarWidth(t).value;
      TimesStep(n, w);
      if pos + w <= |file| {
        SkipScalarsMatch(file, pos + w, t, n - 1, p);
      }
    }
  }

  lemma {:induction false} SkipStrsMatch(file: seq<byte>, pos: nat, n: nat, p: nat)
    requires |file| <= MAX_OFFSET && pos <= |file|
    ensures DecodeEach(file, pos, 8, n) == Some(p) <==> SkipStrs(file, pos, n) == Ok((Skipped, p)) && p <= |file|
    decreases n
  {
    hide FromLE;
    if n > 0 {
      var rawLen := Read(file, pos, 8);
      if |rawLen| == 8 {
        var q := pos + 8 + FromLE(rawLen);
        if q <= |file| {
          SkipStrsMatch(file, q, n - 1, p);
        } else if q <= MAX_OFFSET {
          SkipStrsForward(file, q, n - 1);
        }
      }
    }
  }

  /**
    In any file at all, skipping an array lands inside the file at p if and only if decoding every
    element succeeds and ends at p.
  */
  lemma SkipMatchesDecode(file: seq<byte>, pos: nat, t: nat, n: nat, p: nat)
    requires |file| <= MAX_OFFSET && pos <= |file| && (t == 8 || ScalarWidth(t).Some?)
    ensures DecodeEach(file, pos, t, n) == Some(p) <==> SkipEach(file, pos, t, n) == Ok((Skipped, p)) && p <= |file|
  {
    if t == 8 {
      SkipStrsMatch(file, pos, n, p);
    } else {
      SkipScalarsMatch(file, pos, t, n, p);
    }
  }
}
