/**
  Capture and paste on macOS. The environment decides what accessibility shows, whether key events
  may be posted, whether the target comes to the front, and what is copied before each poll.
*/
module MacInput {
  import opened Wrappers
  import opened Pasteboard

  /** Something another party put on the board while the capture was polling. */
  datatype Foreign = Foreign(byUser: bool, items: seq<Item>)

  /** What was copied before one poll, and whether the poll can read the board. */
  datatype Polled = Polled(copy: Option<Foreign>, readable: bool)

  datatype Captured = Captured(text: string, original: Option<Snapshot>, copiedCount: Option<nat>)

  /**
    How the environment answers one capture: whether there is a front application, what accessibility shows, whether
    the first snapshot works and Command-C may be sent, the polls, whether the text can be read, and the restore.
  */
  datatype CaptureEnv = CaptureEnv(
    front: bool, accessible: Option<string>, readable: bool, mayPost: bool, polls: seq<Polled>,
    textReadable: bool, restore: Reply)

  /** How the environment answers one paste. */
  datatype PasteEnv = PasteEnv(activates: bool, readable: bool, write: Reply, mayPost: bool, restore: Reply)

  /** A restore that is to happen after the delay. */
  datatype Scheduled = Scheduled(saved: Snapshot, guard: nat)

  datatype Texts = Texts(textOf: seq<Item> -> Option<string>, itemsOf: string -> seq<Item>)

  function Copied(b: Board, copy: Option<Foreign>): Board {
    if copy.Some? then Board(copy.value.items, b.changeCount + 1) else b
  }

  /** The board when polling ends, and the count at which a change was seen. */
  function Poll(b: Board, since: nat, polls: seq<Polled>): (Board, Option<nat>)
    decreases |polls|
  {
    if polls == [] then (b, None)
    else
      var b' := Copied(b, polls[0].copy);
      if polls[0].readable && b'.changeCount != since then (b', Some(b'.changeCount))
      else Poll(b', since, polls[1..])
  }

  datatype CaptureEnd = CaptureEnd(outcome: Result<Captured, InputCode>, board: Board, last: Option<nat>)

  /** Whether a capture gets as far as sending Command-C and polling; if not, how it ends. */
  function BeforePolling(env: CaptureEnv): Option<Result<Captured, InputCode>> {
    if !env.front then Some(Err(NotAvailable))
    else if env.accessible.Some? && env.accessible.value != "" then
      Some(Ok(Captured(env.accessible.value, None, None)))
    else if !env.readable then Some(Err(Failed))
    else if !env.mayPost then Some(Err(PostEventRequired))
    else None
  }

  function TextOn(texts: Texts, b: Board, env: CaptureEnv): string {
    var text := if env.textReadable then texts.textOf(b.items) else None;
    if text.Some? then text.value else ""
  }

  function Capture(texts: Texts, b: Board, env: CaptureEnv): CaptureEnd {
    var early := BeforePolling(env);
    if early.Some? then CaptureEnd(early.value, b, None)
    else
      var (seen, count) := Poll(b, b.changeCount, env.polls);
      if count.None? then CaptureEnd(Err(NoSelection), seen, None)
      else if TextOn(texts, seen, env) != "" then
        CaptureEnd(Ok(Captured(TextOn(texts, seen, env), Some(Snap(b)), count)), seen, count)
      else CaptureEnd(Err(NoSelection), Restore(seen, Snap(b), count, env.restore).1, None)
  }

  /** Puts the capture's original back only while the board can be read and still is what the capture left. */
  function RestoreIfOwned(b: Board, original: Option<Snapshot>, last: Option<nat>, readable: bool, reply: Reply): Board {
    if readable && original.Some? && last == Some(b.changeCount) then Restore(b, original.value, last, reply).1 else b
  }

  predicate CaptureOwned(b: Board, original: Option<Snapshot>, last: Option<nat>) {
    original.Some? && (b.changeCount == original.value.changeCount || last == Some(b.changeCount))
  }

  /** What a paste plans to put back. */
  function Displaced(b: Board, original: Option<Snapshot>, last: Option<nat>): Snapshot {
    if CaptureOwned(b, original, last) then original.value else Snap(b)
  }

  datatype PasteEnd = PasteEnd(outcome: Result<(), InputCode>, board: Board, scheduled: Option<Scheduled>)

  function Paste(texts: Texts, b: Board, text: string, original: Option<Snapshot>, last: Option<nat>, env: PasteEnv): PasteEnd {
    if text == "" then PasteEnd(Err(Failed), b, None)
    else if !env.activates then
      PasteEnd(Err(TargetChanged), RestoreIfOwned(b, original, last, env.readable, env.restore), None)
    else if !env.readable then PasteEnd(Err(Failed), b, None)
    else
      var saved := Displaced(b, original, last);
      var (written, board) := Write(b, texts.itemsOf(text), env.write);
      if written.Err? then PasteEnd(Err(written.error), board, None)
      else if !env.mayPost then
        PasteEnd(Err(PostEventRequired), Restore(board, saved, Some(written.value), env.restore).1, None)
      else PasteEnd(Ok(()), board, Some(Scheduled(saved, written.value)))
  }

  class InputBackend {
    const texts: Texts
    const board: GeneralPasteboard
    var lastCaptureChangeCount: Option<nat>

    constructor (texts: Texts, board: GeneralPasteboard)
      ensures this.texts == texts && this.board == board && lastCaptureChangeCount == None
    {
      this.texts, this.board, lastCaptureChangeCount := texts, board, None;
    }

    method CaptureSelection(env: CaptureEnv) returns (r: Result<Captured, InputCode>)
      modifies this, board
      ensures CaptureEnd(r, board.View(), lastCaptureChangeCount) == Capture(texts, old(board.View()), env)
    {
      hide Readable, Restore;
      lastCaptureChangeCount := None;
      if !env.front {
        return Err(NotAvailable);
      }
      if env.accessible.Some? && env.accessible.value != "" {
        return Ok(Captured(env.accessible.value, None, None));
      }
      var snapshot := board.SnapshotPasteboard(env.readable);
      if snapshot.Err? {
        return Err(snapshot.error);
      }
      if !env.mayPost {
        return Err(PostEventRequired);
      }
      var copiedCount: Option<nat> := None;
      var i := 0;
      while i < |env.polls|
        invariant i <= |env.polls| && copiedCount == None && lastCaptureChangeCount == None
        invariant Poll(old(board.View()), snapshot.value.changeCount, env.polls) ==
                  Poll(board.View(), snapshot.value.changeCount, env.polls[i..])
      {
        assert env.polls[i..][1..] == env.polls[i + 1..];
        if env.polls[i].copy.Some? {
          board.items, board.changeCount := env.polls[i].copy.value.items, board.changeCount + 1;
        }
        var current := board.SnapshotPasteboard(env.polls[i].readable);
        if current.Ok? && current.value.changeCount != snapshot.value.changeCount {
          var text := if env.textReadable then texts.textOf(board.items) else None;
          copiedCount := Some(current.value.changeCount);
          if text.Some? && text.value != "" {
            lastCaptureChangeCount := copiedCount;
            return Ok(Captured(text.value, Some(snapshot.value), copiedCount));
          }
          break;
        }
        i := i + 1;
      }
      if copiedCount.Some? {
        var _ := board.RestoreSnapshot(snapshot.value, copiedCount, env.restore);
      }
      r := Err(NoSelection);
    }

    method RestoreCaptureIfOwned(original: Option<Snapshot>, readable: bool, reply: Reply)
      modifies board
      ensures board.View() == RestoreIfOwned(old(board.View()), original, lastCaptureChangeCount, readable, reply)
    {
      if original == None || lastCaptureChangeCount == None {
        return;
      }
      var current := board.SnapshotPasteboard(readable);
      if current.Ok? {
        if current.value.changeCount == lastCaptureChangeCount.value {
          var _ := board.RestoreSnapshot(original.value, lastCaptureChangeCount, reply);
        }
      }
    }

    /** The restore after the delay is returned as a value; a thread of its own carries it out later. */
    method PasteText(text: string, original: Option<Snapshot>, env: PasteEnv)
      returns (r: Result<(), InputCode>, scheduled: Option<Scheduled>)
      modifies board
      ensures PasteEnd(r, board.View(), scheduled) ==
              Paste(texts, old(board.View()), text, original, lastCaptureChangeCount, env)
    {
      hide Readable, Restore;
      if text == "" {
        return Err(Failed), None;
      }
      if !env.activates {
        RestoreCaptureIfOwned(original, env.readable, env.restore);
        return Err(TargetChanged), None;
      }
      var snapshot := board.SnapshotPasteboard(env.readable);
      if snapshot.Err? {
        return Err(snapshot.error), None;
      }
      var count := snapshot.value.changeCount;
      var captureOwned := original.Some? && (count == original.value.changeCount || lastCaptureChangeCount == Some(count));
      var restoreValue := if captureOwned then original.value else snapshot.value;
      var written := board.WriteText(texts.itemsOf(text), env.write);
      if written.Err? {
        return Err(written.error), None;
      }
      if !env.mayPost {
        var _ := board.RestoreSnapshot(restoreValue, Some(written.value), env.restore);
        return Err(PostEventRequired), None;
      }
      r, scheduled := Ok(()), Some(Scheduled(restoreValue, written.value));
    }

    method RestoreLater(s: Scheduled, reply: Reply)
      modifies board
      ensures board.View() == Restore(old(board.View()), s.saved, Some(s.guard), reply).1
    {
      var _ := board.RestoreSnapshot(s.saved, Some(s.guard), reply);
    }
  }
}
