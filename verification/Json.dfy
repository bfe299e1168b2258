/** JSON values as the parser returns them, and the parts of their Python behaviour the client relies on. */
module Json {
  import opened Strings
  import opened Wrappers

  datatype Json =
    | Null
    | Bool(b: bool)
    | Number(n: real)
    | Text(s: string)
    | Array(items: seq<Json>)
    | Object(fields: map<string, Json>)

  /** A hashable value: booleans and numbers hash and compare alike, arrays and objects do not hash. */
  datatype Key = NoneKey | NumberKey(n: real) | TextKey(s: string)

  function KeyOf(j: Json): Option<Key> {
    match j
    case Null => Some(NoneKey)
    case Bool(b) => Some(NumberKey(if b then 1.0 else 0.0))
    case Number(n) => Some(NumberKey(n))
    case Text(s) => Some(TextKey(s))
    case Array(_) => None
    case Object(_) => None
  }

  /** A notification: it names a method and carries no id (section 4.1 of JSON-RPC 2.0). */
  predicate IsNotification(frame: Json) {
    && frame.Object?
    && "method" in frame.fields
    && ("id" in frame.fields ==> frame.fields["id"].Null?)
  }

  predicate HasId(frame: Json) {
    frame.Object? && "id" in frame.fields
  }

  /** The key under which a frame with an id is filed, when the id hashes. */
  function ReplyKey(frame: Json): Option<Key> {
    if HasId(frame) then KeyOf(frame.fields["id"]) else None
  }

  /** Whether the dispatch loop gets past this frame without an exception. */
  predicate Dispatches(frame: Json) {
    match frame
    case Object(fields) =>
      if IsNotification(frame) then KeyOf(fields["method"]).Some?
      else "id" in fields ==> KeyOf(fields["id"]).Some?
    case Array(items) => Text("method") !in items && Text("id") !in items
    case Text(s) => !Contains(s, "method") && !Contains(s, "id")
    case _ => false
  }

  predicate AllDispatch(frames: seq<Json>) {
    forall f | f in frames :: Dispatches(f)
  }

  /** The id that a command with this request number carries. */
  function RequestKey(id: nat): Key {
    NumberKey(id as real)
  }
}
