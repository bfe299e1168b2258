/**
  Captures, pastes and delayed restores on a shared pasteboard, interleaved with a user who may copy at any moment.
  Each step of Stet below is atomic; between any two steps anyone may act, and every call may fail.
*/
module ClipboardProtocol {
  import opened Wrappers
  import opened Pasteboard
  import opened MacInput

  /**
    `lastUser` is what the user last placed, `last` the backend's record of its own capture,
    `original` and `copiedCount` what the application kept of the latest capture.
  */
  datatype World = World(
    board: Board, lastUser: seq<Item>, last: Option<nat>,
    original: Option<Snapshot>, copiedCount: Option<nat>, pending: seq<Scheduled>)

  datatype Event =
    | UserCopies(items: seq<Item>, more: nat)
    | TargetCopies(items: seq<Item>)
    | Captures(capture: CaptureEnv)
    | RestoresCapture(reply: Reply)
    | Pastes(text: string, paste: PasteEnv)
    | RestoresLater(index: nat, reply: Reply)

  function Start(b: Board): World {
    World(b, b.items, None, None, None, [])
  }

  /** What the user placed last when polling ends. */
  function UserAfterPolls(lastUser: seq<Item>, b: Board, since: nat, polls: seq<Polled>): seq<Item>
    decreases |polls|
  {
    if polls == [] then lastUser
    else
      var copy := polls[0].copy;
      var user := if copy.Some? && copy.value.byUser then copy.value.items else lastUser;
      var b' := Copied(b, copy);
      if polls[0].readable && b'.changeCount != since then user else UserAfterPolls(user, b', since, polls[1..])
  }

  function UserAfterCapture(w: World, env: CaptureEnv): seq<Item> {
    if BeforePolling(env).Some? then w.lastUser
    else UserAfterPolls(w.lastUser, w.board, w.board.changeCount, env.polls)
  }

  function Step(texts: Texts, w: World, e: Event): World {
    match e
    case UserCopies(items, more) =>
      w.(board := Board(items, w.board.changeCount + 1 + more), lastUser := items)
    case TargetCopies(items) =>
      w.(board := Board(items, w.board.changeCount + 1))
    case Captures(env) =>
      var end := Capture(texts, w.board, env);
      w.(board := end.board, last := end.last, lastUser := UserAfterCapture(w, env),
         original := if end.outcome.Ok? then end.outcome.value.original else None,
         copiedCount := if end.outcome.Ok? then end.outcome.value.copiedCount else None)
    case RestoresCapture(reply) =>
      if w.original.None? then w
      else w.(board := Restore(w.board, w.original.value, w.copiedCount, reply).1)
    case Pastes(text, env) =>
      var end := Paste(texts, w.board, text, w.original, w.last, env);
      w.(board := end.board, pending := w.pending + if end.scheduled.Some? then [end.scheduled.value] else [])
    case RestoresLater(i, reply) =>
      if i >= |w.pending| then w
      else w.(board := Restore(w.board, w.pending[i].saved, Some(w.pending[i].guard), reply).1,
              pending := w.pending[..i] + w.pending[i + 1..])
  }

  function RunFrom(texts: Texts, w: World, events: seq<Event>): World {
    if events == [] then w else Step(texts, RunFrom(texts, w, events[..|events| - 1]), events[|events| - 1])
  }

  function Run(texts: Texts, b: Board, events: seq<Event>): World {
    RunFrom(texts, Start(b), events)
  }

  /** The board still holds what a capture made the target copy, and the capture is on record. */
  predicate Holding(w: World) {
    w.last == Some(w.board.changeCount)
  }

  /** One of the delayed restores will go ahead: only the last can, the guards of the others have passed. */
  predicate Live(w: World) {
    w.pending != [] && w.pending[|w.pending| - 1].guard == w.board.changeCount
  }

  // ---------- what holds in every run ----------

  predicate CaptureRecord(w: World) {
    && (w.original.Some? <==> w.last.Some?)
    && (w.original.Some? ==> w.copiedCount == w.last)
    && (w.original.Some? ==> w.original.value.changeCount < w.last.value <= w.board.changeCount)
  }

  predicate Guards(w: World) {
    && (forall i, j | 0 <= i < j < |w.pending| :: w.pending[i].guard < w.pending[j].guard)
    && (forall i | 0 <= i < |w.pending| :: w.pending[i].guard <= w.board.changeCount && w.last != Some(w.pending[i].guard))
  }

  predicate Shape(w: World) {
    CaptureRecord(w) && Guards(w)
  }

  /** What the board will show, as far as any snapshot can tell, once Stet has put back all it is going to put back. */
  function Recoverable(w: World): seq<seq<Saved>> {
    if Live(w) then w.pending[|w.pending| - 1].saved.items
    else if Holding(w) && w.original.Some? then w.original.value.items
    else Readable(w.board.items)
  }

  predicate ShowsUser(w: World) {
    Readable(w.board.items) == Readable(w.lastUser)
  }

  /** The user's content is on the board, or in the one restore that will fire, or in the capture record. */
  predicate UserSafe(w: World) {
    Recoverable(w) == Readable(w.lastUser)
  }

  lemma RestoreMeaning(b: Board, saved: Snapshot, expected: Option<nat>, reply: Reply)
    ensures var b' := Restore(b, saved, expected, reply).1;
            if reply.Untouched? || (expected.Some? && expected.value != b.changeCount) then b' == b
            else if reply.Rejects? then b' == Board([], b.changeCount + 1)
            else Readable(b'.items) == saved.items && b'.changeCount > b.changeCount
  {
    ReadablePut(saved.items);
  }

  lemma {:induction false} PollMeaning(lastUser: seq<Item>, b: Board, since: nat, polls: seq<Polled>)
    requires since <= b.changeCount
    ensures var (seen, count) := Poll(b, since, polls);
            && seen.changeCount >= b.changeCount
            && (count.Some? ==> count.value == seen.changeCount > since)
            && (seen.changeCount == b.changeCount ==> seen == b && UserAfterPolls(lastUser, b, since, polls) == lastUser)
    decreases |polls|
  {
    if polls != [] {
      var copy := polls[0].copy;
      var user := if copy.Some? && copy.value.byUser then copy.value.items else lastUser;
      PollMeaning(user, Copied(b, copy), since, polls[1..]);
    }
  }

  /** What a capture does, without its details. */
  lemma CaptureMeaning(texts: Texts, w: World, env: CaptureEnv)
    ensures var end := Capture(texts, w.board, env);
            var (seen, count) := Poll(w.board, w.board.changeCount, env.polls);
            if BeforePolling(env).Some? || seen.changeCount == w.board.changeCount then
              && end.board == w.board && end.last == None && UserAfterCapture(w, env) == w.lastUser
              && (end.outcome.Ok? ==> end.outcome.value.original == None)
            else if count.None? then
              end == CaptureEnd(Err(NoSelection), seen, None) && seen.changeCount > w.board.changeCount
            else
              && seen.changeCount > w.board.changeCount
              && if TextOn(texts, seen, env) != "" then
                   end == CaptureEnd(Ok(Captured(TextOn(texts, seen, env), Some(Snap(w.board)), count)), seen, count)
                   && count == Some(seen.changeCount)
                 else
                   && end.outcome.Err? && end.last == None
                   && end.board == Restore(seen, Snap(w.board), Some(seen.changeCount), env.restore).1
  {
    hide Readable, Restore, Poll, UserAfterPolls, TextOn;
    PollMeaning(w.lastUser, w.board, w.board.changeCount, env.polls);
    var (seen, count) := Poll(w.board, w.board.changeCount, env.polls);
    assert count.Some? ==> count == Some(seen.changeCount);
    assert BeforePolling(env).None? && count.Some? && TextOn(texts, seen, env) == "" ==>
             Capture(texts, w.board, env).board == Restore(seen, Snap(w.board), count, env.restore).1;
  }

  lemma CaptureShape(texts: Texts, w: World, env: CaptureEnv)
    requires Shape(w)
    ensures Shape(Step(texts, w, Captures(env)))
  {
    hide Readable, Restore, Poll, Capture, TextOn;
    CaptureMeaning(texts, w, env);
    var (seen, count) := Poll(w.board, w.board.changeCount, env.polls);
    RestoreMeaning(seen, Snap(w.board), Some(seen.changeCount), env.restore);
  }

  lemma PasteShape(texts: Texts, w: World, text: string, env: PasteEnv)
    requires Shape(w)
    ensures Shape(Step(texts, w, Pastes(text, env)))
  {
    hide Readable, Restore;
    if w.original.Some? {
      RestoreMeaning(w.board, w.original.value, w.last, env.restore);
    }
    var (written, board) := Write(w.board, texts.itemsOf(text), env.write);
    RestoreMeaning(board, Displaced(w.board, w.original, w.last), Some(board.changeCount), env.restore);
  }

  lemma RestoreShape(texts: Texts, w: World, e: Event)
    requires Shape(w) && (e.RestoresCapture? || e.RestoresLater?)
    ensures Shape(Step(texts, w, e))
  {
    hide Readable, Restore;
    match e
    case RestoresCapture(reply) =>
      if w.original.Some? {
        RestoreMeaning(w.board, w.original.value, w.copiedCount, reply);
      }
    case RestoresLater(i, reply) =>
      if i < |w.pending| {
        RestoreMeaning(w.board, w.pending[i].saved, Some(w.pending[i].guard), reply);
      }
  }

  lemma StepShape(texts: Texts, w: World, e: Event)
    requires Shape(w)
    ensures Shape(Step(texts, w, e))
  {
    hide Readable, Restore, Poll, Capture, Paste;
    match e
    case UserCopies(_, _) =>
    case TargetCopies(_) =>
    case Captures(env) => CaptureShape(texts, w, env);
    case Pastes(text, env) => PasteShape(texts, w, text, env);
    case _ => RestoreShape(texts, w, e);
  }

  lemma {:induction false} RunShape(texts: Texts, w: World, events: seq<Event>)
    requires Shape(w)
    ensures Shape(RunFrom(texts, w, events))
    decreases |events|
  {
    hide Step, Shape;
    if events != [] {
      RunShape(texts, w, events[..|events| - 1]);
      StepShape(texts, RunFrom(texts, w, events[..|events| - 1]), events[|events| - 1]);
    }
  }

  // ---------- where things end up ----------

  /** A restore of either kind that writes. */
  predicate PutsBack(e: Event) {
    (e.RestoresCapture? || e.RestoresLater?) && e.reply.Writes()
  }

  /** The last guard that is left when one delayed restore is taken out. */
  lemma TakenOut(pending: seq<Scheduled>, i: nat)
    requires i < |pending|
    ensures var rest := pending[..i] + pending[i + 1..];
            && (i < |pending| - 1 ==> rest != [] && rest[|rest| - 1] == pending[|pending| - 1])
            && (i == |pending| - 1 && rest != [] ==> i > 0 && rest[|rest| - 1] == pending[i - 1])
  {
  }

  /** A delayed restore other than the one that can go ahead does nothing; that one does what the reply lets it. */
  lemma LaterMeaning(texts: Texts, w: World, i: nat, reply: Reply)
    requires Shape(w) && i < |w.pending|
    ensures var w' := Step(texts, w, RestoresLater(i, reply));
            && w'.lastUser == w.lastUser
            && Recoverable(w') == if !Live(w) || i < |w.pending| - 1 || reply.Writes() then Recoverable(w)
                                  else if reply.Rejects? then [] else Readable(w.board.items)
  {
    hide Readable, Restore, Guards;
    NothingReadable();
    TakenOut(w.pending, i);
    EarlierPassed(w, i);
    RestoreMeaning(w.board, w.pending[i].saved, Some(w.pending[i].guard), reply);
  }

  /** All guards but the last have passed, and none is the count of a capture. */
  lemma EarlierPassed(w: World, i: nat)
    requires Guards(w) && i < |w.pending|
    ensures w.pending[i].guard <= w.board.changeCount && w.last != Some(w.pending[i].guard)
    ensures i < |w.pending| - 1 ==> w.pending[i].guard < w.board.changeCount
    ensures i == |w.pending| - 1 && i > 0 ==> w.pending[i - 1].guard < w.board.changeCount
    ensures w.last != Some(w.pending[|w.pending| - 1].guard)
  {
    var last := |w.pending| - 1;
    assert w.pending[last].guard <= w.board.changeCount;
    assert i < last ==> w.pending[i].guard < w.pending[last].guard;
    assert i == last && i > 0 ==> w.pending[i - 1].guard < w.pending[i].guard;
  }

  lemma CaptureRestoreMeaning(texts: Texts, w: World, reply: Reply)
    requires Shape(w)
    ensures var w' := Step(texts, w, RestoresCapture(reply));
            && w'.lastUser == w.lastUser && w'.pending == w.pending && w'.last == w.last
            && (!Holding(w) ==> w' == w)
            && (Holding(w) && reply.Untouched? ==> w' == w)
            && (Holding(w) && !reply.Untouched? ==> !Holding(w') && !Live(w'))
            && Recoverable(w') == if Holding(w) && reply.Rejects? then [] else Recoverable(w)
  {
    hide Readable, Restore;
    NothingReadable();
    if w.original.Some? {
      RestoreMeaning(w.board, w.original.value, w.copiedCount, reply);
    }
  }

  lemma NothingReadable()
    ensures Readable([]) == []
  {
  }

  lemma PutsBackKeeps(texts: Texts, w: World, e: Event)
    requires Shape(w) && PutsBack(e)
    ensures var w' := Step(texts, w, e); Recoverable(w') == Recoverable(w) && w'.lastUser == w.lastUser
  {
    hide Readable, Restore, Recoverable, Shape;
    match e
    case RestoresCapture(reply) => CaptureRestoreMeaning(texts, w, reply);
    case RestoresLater(i, reply) =>
      if i < |w.pending| {
        LaterMeaning(texts, w, i, reply);
      }
  }

  /**
    Whatever order the restores come in: when none is left that could go ahead and no capture is held, the board shows
    what was recoverable before them.
  */
  lemma {:induction false} EndsWithRecoverable(texts: Texts, w: World, restores: seq<Event>)
    requires Shape(w) && forall e | e in restores :: PutsBack(e)
    ensures var w' := RunFrom(texts, w, restores);
            && Shape(w') && Recoverable(w') == Recoverable(w) && w'.lastUser == w.lastUser
            && (!Live(w') && !Holding(w') ==> Readable(w'.board.items) == Recoverable(w))
    decreases |restores|
  {
    hide Step, Shape, PutsBack, Readable;
    RunShape(texts, w, restores);
    if restores != [] {
      var n := |restores| - 1;
      EndsWithRecoverable(texts, w, restores[..n]);
      assert restores[n] in restores;
      PutsBackKeeps(texts, RunFrom(texts, w, restores[..n]), restores[n]);
    }
  }

  function Finishing(n: nat): seq<Event> {
    if n == 0 then [] else Finishing(n - 1) + [RestoresLater(0, Accepts)]
  }

  lemma {:induction false} FinishingMeaning(texts: Texts, w: World, n: nat)
    requires n <= |w.pending|
    ensures forall e | e in Finishing(n) :: PutsBack(e)
    ensures |RunFrom(texts, w, Finishing(n)).pending| == |w.pending| - n
  {
    hide Step;
    if n > 0 {
      FinishingMeaning(texts, w, n - 1);
      assert Finishing(n)[..|Finishing(n)| - 1] == Finishing(n - 1);
      OneFewer(texts, RunFrom(texts, w, Finishing(n - 1)));
    }
  }

  lemma OneFewer(texts: Texts, w: World)
    requires w.pending != []
    ensures var w' := Step(texts, w, RestoresLater(0, Accepts)); |w'.pending| == |w.pending| - 1 && w'.last == w.last
  {
    hide Restore;
  }

  /** Such an order exists: all delayed restores, then the one of the capture. */
  lemma FinishesAlways(texts: Texts, w: World)
    requires Shape(w)
    ensures exists restores :: && (forall e | e in restores :: PutsBack(e))
                               && var w' := RunFrom(texts, w, restores); w'.pending == [] && !Holding(w')
  {
    hide Readable, Restore, Shape;
    var all := Finishing(|w.pending|) + [RestoresCapture(Accepts)];
    FinishingMeaning(texts, w, |w.pending|);
    RunShape(texts, w, Finishing(|w.pending|));
    var most := RunFrom(texts, w, Finishing(|w.pending|));
    assert all[..|all| - 1] == Finishing(|w.pending|);
    CaptureLetsGo(texts, most);
    assert RunFrom(texts, w, all) == Step(texts, most, RestoresCapture(Accepts));
  }

  lemma CaptureLetsGo(texts: Texts, w: World)
    requires Shape(w)
    ensures var w' := Step(texts, w, RestoresCapture(Accepts)); !Holding(w') && w'.pending == w.pending
  {
    hide Readable, Restore;
    if w.original.Some? {
      RestoreMeaning(w.board, w.original.value, w.copiedCount, Accepts);
    }
  }

  // ---------- exactly when the user's content stays safe ----------

  /** The user's clipboard holds nothing that a snapshot can see. */
  predicate UserHasNothing(w: World) {
    Readable(w.lastUser) == []
  }

  /** After a write that failed before anything was planned: what is left on the board must be the user's. */
  predicate HarmlessRestore(w: World, reply: Reply) {
    reply.Rejects? ==> UserHasNothing(w)
  }

  predicate HarmlessPaste(texts: Texts, w: World, text: string, env: PasteEnv) {
    var stets := Readable(texts.itemsOf(text)) == Readable(w.lastUser);
    if text == "" then true
    else if !env.activates then env.readable && Holding(w) ==> HarmlessRestore(w, env.restore)
    else if !env.readable || env.write.Untouched? then true
    else if env.write.Rejects? then UserHasNothing(w)
    else if env.write.Lost? then stets
    else if !env.mayPost && env.restore.Rejects? then UserHasNothing(w)
    else if !env.mayPost && env.restore.Untouched? then stets
    else Live(w) ==> ShowsUser(w)
  }

  predicate HarmlessCapture(texts: Texts, w: World, env: CaptureEnv) {
    var (seen, count) := Poll(w.board, w.board.changeCount, env.polls);
    var user := Readable(UserAfterCapture(w, env));
    if BeforePolling(env).Some? || seen.changeCount == w.board.changeCount then Holding(w) ==> ShowsUser(w)
    else if count.None? then Readable(seen.items) == user
    else if TextOn(texts, seen, env) != "" || env.restore.Writes() then Readable(w.board.items) == user
    else if env.restore.Rejects? then user == []
    else Readable(seen.items) == user
  }

  /**
    What a step must not do: start over a copy or a restore that is not settled, take a user's copy for the target's,
    miss a copy, or meet a failing write - each unless the clipboard happens to show the right thing anyway.
  */
  predicate Harmless(texts: Texts, w: World, e: Event) {
    match e
    case UserCopies(_, _) => true
    case TargetCopies(items) => Readable(items) == Readable(w.lastUser)
    case Captures(env) => HarmlessCapture(texts, w, env)
    case RestoresCapture(reply) => Holding(w) ==> HarmlessRestore(w, reply)
    case Pastes(text, env) => HarmlessPaste(texts, w, text, env)
    case RestoresLater(i, reply) =>
      Live(w) && i == |w.pending| - 1 ==> HarmlessRestore(w, reply) && (reply.Untouched? ==> ShowsUser(w))
  }

  lemma CaptureExactly(texts: Texts, w: World, env: CaptureEnv)
    requires Shape(w) && UserSafe(w)
    ensures UserSafe(Step(texts, w, Captures(env))) <==> HarmlessCapture(texts, w, env)
  {
    hide Readable, Restore, Poll, Capture, TextOn, UserAfterCapture, BeforePolling;
    CaptureMeaning(texts, w, env);
    var (seen, count) := Poll(w.board, w.board.changeCount, env.polls);
    RestoreMeaning(seen, Snap(w.board), Some(seen.changeCount), env.restore);
    NothingReadable();
  }

  /** What is recoverable after a paste, branch by branch. */
  lemma PasteMeaning(texts: Texts, w: World, text: string, env: PasteEnv)
    requires Shape(w)
    ensures var w' := Step(texts, w, Pastes(text, env));
            var stets := Readable(texts.itemsOf(text));
            && w'.lastUser == w.lastUser
            && Recoverable(w') ==
                 if text == "" then Recoverable(w)
                 else if !env.activates then
                   if env.readable && Holding(w) && env.restore.Rejects? then [] else Recoverable(w)
                 else if !env.readable || env.write.Untouched? then Recoverable(w)
                 else if env.write.Rejects? then []
                 else if env.write.Lost? then stets
                 else if !env.mayPost && env.restore.Rejects? then []
                 else if !env.mayPost && env.restore.Untouched? then stets
                 else Displaced(w.board, w.original, w.last).items
  {
    hide Readable, Restore, Displaced;
    NothingReadable();
    if text == "" || (env.activates && !env.readable) {
    } else if !env.activates {
      if w.original.Some? {
        RestoreMeaning(w.board, w.original.value, w.last, env.restore);
      }
    } else {
      var (written, board) := Write(w.board, texts.itemsOf(text), env.write);
      RestoreMeaning(board, Displaced(w.board, w.original, w.last), Some(board.changeCount), env.restore);
    }
  }

  lemma DisplacedMeaning(w: World)
    requires Shape(w)
    ensures Displaced(w.board, w.original, w.last).items
         == if Live(w) then Readable(w.board.items) else Recoverable(w)
  {
    hide Readable;
  }

  lemma PasteExactly(texts: Texts, w: World, text: string, env: PasteEnv)
    requires Shape(w) && UserSafe(w)
    ensures UserSafe(Step(texts, w, Pastes(text, env))) <==> HarmlessPaste(texts, w, text, env)
  {
    hide Readable, Step, Displaced, Shape, Recoverable, Holding, Live;
    PasteMeaning(texts, w, text, env);
    DisplacedMeaning(w);
  }

  lemma RestoreExactly(texts: Texts, w: World, e: Event)
    requires Shape(w) && UserSafe(w) && (e.RestoresCapture? || e.RestoresLater?)
    ensures UserSafe(Step(texts, w, e)) <==> Harmless(texts, w, e)
  {
    hide Readable, Restore, Recoverable, Shape;
    match e
    case RestoresCapture(reply) => CaptureRestoreMeaning(texts, w, reply);
    case RestoresLater(i, reply) =>
      if i < |w.pending| {
        LaterMeaning(texts, w, i, reply);
      }
  }

  /** A step keeps the user's content safe if and only if it is harmless, for every step and every failure. */
  lemma StepExactly(texts: Texts, w: World, e: Event)
    requires Shape(w) && UserSafe(w)
    ensures UserSafe(Step(texts, w, e)) <==> Harmless(texts, w, e)
  {
    hide Readable, Restore, Poll, Capture, Paste, HarmlessCapture, HarmlessPaste;
    match e
    case UserCopies(_, _) =>
    case TargetCopies(_) =>
    case Captures(env) => CaptureExactly(texts, w, env);
    case Pastes(text, env) => PasteExactly(texts, w, text, env);
    case _ => RestoreExactly(texts, w, e);
  }

  predicate HarmlessRun(texts: Texts, b: Board, events: seq<Event>) {
    events != [] ==>
      && HarmlessRun(texts, b, events[..|events| - 1])
      && Harmless(texts, Run(texts, b, events[..|events| - 1]), events[|events| - 1])
  }

  /** Over any run at all: the user's content was safe all along if and only if every step was harmless. */
  lemma {:induction false} RunExactly(texts: Texts, b: Board, events: seq<Event>)
    ensures HarmlessRun(texts, b, events) <==> forall n | 0 <= n <= |events| :: UserSafe(Run(texts, b, events[..n]))
    decreases |events|
  {
    hide Step, Shape, UserSafe, Harmless;
    StartSafe(texts, b);
    if events == [] {
      assert events[..0] == [];
    } else {
      var most := events[..|events| - 1];
      RunExactly(texts, b, most);
      assert forall n | 0 <= n <= |most| :: most[..n] == events[..n];
      assert events[..|events|] == events && most[..|most|] == most;
      RunShape(texts, Start(b), most);
      if UserSafe(Run(texts, b, most)) {
        StepExactly(texts, Run(texts, b, most), events[|events| - 1]);
      }
    }
  }

  lemma StartSafe(texts: Texts, b: Board)
    ensures Shape(Start(b)) && UserSafe(Start(b)) && Run(texts, b, []) == Start(b)
  {
  }

  /**
    After any harmless run, once the outstanding restores have come, in whatever order, the board shows what the user
    last placed: never Stet's text, never anything older.
  */
  lemma UserContentComesBack(texts: Texts, b: Board, events: seq<Event>, restores: seq<Event>)
    requires HarmlessRun(texts, b, events) && forall e | e in restores :: PutsBack(e)
    ensures var w, w' := Run(texts, b, events), RunFrom(texts, Run(texts, b, events), restores);
            && w'.lastUser == w.lastUser
            && (!Live(w') && !Holding(w') ==> ShowsUser(w'))
  {
    hide Step, Shape, Readable, Recoverable, HarmlessRun, PutsBack;
    RunExactly(texts, b, events);
    assert events[..|events|] == events;
    StartSafe(texts, b);
    RunShape(texts, Start(b), events);
    EndsWithRecoverable(texts, Run(texts, b, events), restores);
  }

  /** The same without waiting: where the user's content is, at the end of any harmless run. */
  lemma UserContentAtRest(texts: Texts, b: Board, events: seq<Event>)
    requires HarmlessRun(texts, b, events)
    ensures var w := Run(texts, b, events);
            && (!Live(w) && !Holding(w) ==> ShowsUser(w))
            && (Holding(w) ==> w.original.Some? && w.original.value.items == Readable(w.lastUser))
            && (Live(w) ==> w.pending[|w.pending| - 1].saved.items == Readable(w.lastUser))
  {
    hide Step, Readable, HarmlessRun;
    RunExactly(texts, b, events);
    assert events[..|events|] == events;
    StartSafe(texts, b);
    RunShape(texts, Start(b), events);
  }

  // ---------- a discipline that is enough ----------

  predicate Sees(w: World, env: CaptureEnv) {
    var (seen, count) := Poll(w.board, w.board.changeCount, env.polls);
    count.Some? || seen.changeCount == w.board.changeCount
  }

  /**
    Nothing is started while a restore can still go ahead or a copy is held, nobody but the target copies while a
    capture polls, and then in time, and the board takes what is written to it.
  */
  predicate Orderly(w: World, e: Event) {
    match e
    case UserCopies(_, _) => true
    case TargetCopies(_) => false
    case Captures(env) =>
      && !Live(w) && !Holding(w) && Sees(w, env) && UserAfterCapture(w, env) == w.lastUser && env.restore.Writes()
    case RestoresCapture(reply) => reply.Writes()
    case Pastes(_, env) => !Live(w) && env.write.Accepts? && env.restore.Writes()
    case RestoresLater(_, reply) => reply.Writes()
  }

  lemma OrderlyIsHarmless(texts: Texts, w: World, e: Event)
    requires Shape(w) && UserSafe(w) && Orderly(w, e)
    ensures Harmless(texts, w, e)
  {
    hide Readable, Poll, TextOn;
  }

  // ---------- the two hotkey workers as the application runs them ----------

  function UserCopiesAll(w: World, copies: seq<seq<Item>>): World
    decreases |copies|
  {
    if copies == [] then w
    else UserCopiesAll(w.(board := Board(copies[0], w.board.changeCount + 1), lastUser := copies[0]), copies[1..])
  }

  /** A copy of the user's own settles everything before it. */
  lemma {:induction false} CopiesMeaning(w: World, copies: seq<seq<Item>>)
    requires Shape(w)
    ensures var w' := UserCopiesAll(w, copies);
            && Shape(w') && w'.pending == w.pending && w'.last == w.last
            && w'.original == w.original && w'.copiedCount == w.copiedCount
            && if copies == [] then w' == w else UserSafe(w') && !Holding(w') && !Live(w') && ShowsUser(w')
    decreases |copies|
  {
    hide Readable;
    if copies != [] {
      CopiesMeaning(w.(board := Board(copies[0], w.board.changeCount + 1), lastUser := copies[0]), copies[1..]);
    }
  }

  /** Captures for the panel and always restores afterwards; the user may copy in between. */
  function PanelWorker(texts: Texts, w: World, env: CaptureEnv, copies: seq<seq<Item>>, restore: Reply): World {
    Step(texts, UserCopiesAll(Step(texts, w, Captures(env)), copies), RestoresCapture(restore))
  }

  /**
    A panel capture keeps the user's content safe if and only if the user copies something afterwards or the capture
    was harmless. It leaves nothing to be put back; without an earlier restore still to come the board then shows it.
  */
  lemma PanelWorkerExactly(texts: Texts, w: World, env: CaptureEnv, copies: seq<seq<Item>>, restore: Reply)
    requires Shape(w) && UserSafe(w) && restore.Writes()
    ensures var w' := PanelWorker(texts, w, env, copies, restore);
            && (UserSafe(w') <==> copies != [] || HarmlessCapture(texts, w, env))
            && !Holding(w') && (!Live(w) ==> !Live(w'))
            && (!Live(w) ==> (ShowsUser(w') <==> copies != [] || HarmlessCapture(texts, w, env)))
  {
    hide Readable, Step, HarmlessCapture, Shape;
    var w1 := Step(texts, w, Captures(env));
    StepShape(texts, w, Captures(env));
    CaptureExactly(texts, w, env);
    CaptureNotLive(texts, w, env);
    CopiesMeaning(w1, copies);
    CaptureRestoreMeaning(texts, UserCopiesAll(w1, copies), restore);
  }

  lemma CaptureNotLive(texts: Texts, w: World, env: CaptureEnv)
    requires Shape(w)
    ensures var w' := Step(texts, w, Captures(env)); (!Live(w) ==> !Live(w')) && w'.pending == w.pending
  {
    hide Readable, Restore, Poll, Capture, TextOn, UserAfterCapture, BeforePolling;
    CaptureMeaning(texts, w, env);
    var (seen, count) := Poll(w.board, w.board.changeCount, env.polls);
    RestoreMeaning(seen, Snap(w.board), Some(seen.changeCount), env.restore);
  }

  /** How the correction between capture and paste went. */
  datatype Correction = Corrected(text: string) | NothingToDo | Raised

  /** The text that the silent worker sees: a failed capture counts as empty. */
  function CapturedText(texts: Texts, w: World, env: CaptureEnv): string {
    var end := Capture(texts, w.board, env);
    if end.outcome.Ok? then end.outcome.value.text else ""
  }

  /** The last thing the silent worker does to the clipboard; an exception skips it. */
  function Ending(correction: Correction, paste: PasteEnv, restore: Reply): Option<Event> {
    match correction
    case Corrected(text) => Some(Pastes(text, paste))
    case NothingToDo => Some(RestoresCapture(restore))
    case Raised => None
  }

  /** The silent worker; a blank selection returns at once. */
  function SilentWorker(
    texts: Texts, blank: string -> bool, w: World, env: CaptureEnv, copies: seq<seq<Item>>, ending: Option<Event>): World
  {
    var w1 := Step(texts, w, Captures(env));
    if blank(CapturedText(texts, w, env)) then w1
    else
      var w2 := UserCopiesAll(w1, copies);
      if ending.None? then w2 else Step(texts, w2, ending.value)
  }

  /** A paste that ends before it touches the board. */
  predicate Touchless(text: string, env: PasteEnv) {
    || text == "" || !env.readable
    || (if env.activates then env.write.Untouched? else env.restore.Untouched?)
  }

  /** Nothing that would end a capture's hold on the board happens. */
  predicate LeavesCopy(ending: Option<Event>) {
    match ending
    case Some(Pastes(text, env)) => Touchless(text, env)
    case Some(RestoresCapture(reply)) => reply.Untouched?
    case _ => true
  }

  lemma PasteHolds(texts: Texts, w: World, text: string, env: PasteEnv)
    requires Shape(w)
    ensures Holding(Step(texts, w, Pastes(text, env))) <==> Holding(w) && Touchless(text, env)
  {
    hide Readable, Restore;
    if w.original.Some? {
      RestoreMeaning(w.board, w.original.value, w.last, env.restore);
    }
    var (written, board) := Write(w.board, texts.itemsOf(text), env.write);
    RestoreMeaning(board, Displaced(w.board, w.original, w.last), Some(board.changeCount), env.restore);
  }

  lemma CaptureHolds(texts: Texts, w: World, env: CaptureEnv)
    requires Shape(w)
    ensures Holding(Step(texts, w, Captures(env))) <==> Capture(texts, w.board, env).last.Some?
  {
    hide Readable, Restore, Poll, Capture, TextOn, UserAfterCapture, BeforePolling;
    CaptureMeaning(texts, w, env);
  }

  /**
    The silent worker leaves the target's copy on the board if and only if it made one and then saw a blank selection,
    or - with no user copy meanwhile - the correction raised, came out empty, or ended in a call that did nothing.
    Whether the user's content is safe afterwards is decided by the capture and, unless that was blank, by the last step.
  */
  lemma SilentWorkerExactly(
    texts: Texts, blank: string -> bool, w: World, env: CaptureEnv, copies: seq<seq<Item>>,
    correction: Correction, paste: PasteEnv, restore: Reply)
    requires Shape(w) && UserSafe(w)
    ensures var ending := Ending(correction, paste, restore);
            var w' := SilentWorker(texts, blank, w, env, copies, ending);
            var isBlank := blank(CapturedText(texts, w, env));
            && (Holding(w') <==> Capture(texts, w.board, env).last.Some?
                                 && (isBlank || (copies == [] && LeavesCopy(ending))))
            && (isBlank ==> (UserSafe(w') <==> HarmlessCapture(texts, w, env)))
            && (!isBlank && (copies != [] || HarmlessCapture(texts, w, env)) ==>
                  (UserSafe(w') <==>
                     ending.None? || Harmless(texts, UserCopiesAll(Step(texts, w, Captures(env)), copies), ending.value)))
  {
    hide Readable, Step, HarmlessCapture, Shape, UserSafe, Capture, Touchless;
    var w1 := Step(texts, w, Captures(env));
    StepShape(texts, w, Captures(env));
    CaptureExactly(texts, w, env);
    CaptureHolds(texts, w, env);
    CopiesMeaning(w1, copies);
    var w2 := UserCopiesAll(w1, copies);
    match correction
    case Corrected(text) =>
      PasteHolds(texts, w2, text, paste);
      if UserSafe(w2) {
        StepExactly(texts, w2, Pastes(text, paste));
      }
    case NothingToDo =>
      CaptureRestoreMeaning(texts, w2, restore);
      if UserSafe(w2) {
        StepExactly(texts, w2, RestoresCapture(restore));
      }
    case Raised =>
  }

  // ---------- how it goes wrong ----------

  /**
    A paste that goes through while an earlier one is still to be undone: the user's content stays safe if and only if
    no restore could go ahead any more, or the board shows it anyway. Otherwise the text of the earlier paste comes back.
  */
  lemma OverlappingPasteExactly(texts: Texts, w: World, text: string, env: PasteEnv, restores: seq<Event>)
    requires Shape(w) && UserSafe(w) && text != "" && env.activates && env.readable && env.mayPost && env.write.Accepts?
    requires forall e | e in restores :: PutsBack(e)
    ensures var w1 := Step(texts, w, Pastes(text, env));
            var w2 := RunFrom(texts, w1, restores);
            && (UserSafe(w1) <==> !Live(w) || ShowsUser(w))
            && w2.lastUser == w.lastUser
            && (!Live(w2) && !Holding(w2) ==>
                  Readable(w2.board.items) == if Live(w) then Readable(w.board.items) else Readable(w.lastUser))
  {
    hide Readable, Step, Shape, Displaced, PutsBack, Recoverable, Live, Holding;
    PasteMeaning(texts, w, text, env);
    PasteExactly(texts, w, text, env);
    StepShape(texts, w, Pastes(text, env));
    DisplacedMeaning(w);
    EndsWithRecoverable(texts, Step(texts, w, Pastes(text, env)), restores);
  }

  /**
    A capture that sees a copy and is then undone ends with what the board showed before it - whether that was the
    user's, the copy of an earlier capture, or Stet's own text - and with nothing more to put back.
  */
  lemma CaptureDisplaces(texts: Texts, w: World, env: CaptureEnv, restore: Reply)
    requires Shape(w) && BeforePolling(env).None? && restore.Writes()
    requires var (seen, count) := Poll(w.board, w.board.changeCount, env.polls);
             count.Some? && TextOn(texts, seen, env) != ""
    ensures var w' := PanelWorker(texts, w, env, [], restore);
            && !Holding(w') && !Live(w') && w'.lastUser == UserAfterCapture(w, env)
            && Readable(w'.board.items) == Readable(w.board.items)
            && (ShowsUser(w') <==> Readable(w.board.items) == Readable(UserAfterCapture(w, env)))
  {
    hide Readable, Restore, Poll, TextOn, UserAfterCapture, Shape, Capture;
    var w1 := Step(texts, w, Captures(env));
    CaptureSeen(texts, w, env);
    StepShape(texts, w, Captures(env));
    CaptureRestoreMeaning(texts, w1, restore);
    assert UserCopiesAll(w1, []) == w1;
  }

  lemma CaptureSeen(texts: Texts, w: World, env: CaptureEnv)
    requires Shape(w) && BeforePolling(env).None?
    requires var (seen, count) := Poll(w.board, w.board.changeCount, env.polls);
             count.Some? && TextOn(texts, seen, env) != ""
    ensures var w1 := Step(texts, w, Captures(env));
            && Holding(w1) && !Live(w1) && Recoverable(w1) == Readable(w.board.items)
            && w1.lastUser == UserAfterCapture(w, env)
  {
    hide Readable, Restore, Poll, TextOn, UserAfterCapture, Capture;
    PollMeaning(w.lastUser, w.board, w.board.changeCount, env.polls);
    CaptureMeaning(texts, w, env);
  }

  /** One copy, made before the first poll and read by it. */
  function OneCopy(copy: Foreign): CaptureEnv {
    CaptureEnv(true, None, true, true, [Polled(Some(copy), true)], true, Accepts)
  }

  lemma OneCopyMeaning(w: World, copy: Foreign)
    ensures var env := OneCopy(copy);
            && BeforePolling(env).None?
            && Poll(w.board, w.board.changeCount, env.polls)
               == (Board(copy.items, w.board.changeCount + 1), Some(w.board.changeCount + 1))
            && UserAfterCapture(w, env) == if copy.byUser then copy.items else w.lastUser
  {
  }

  /** A user copy that a poll takes for the target's is lost if and only if it changed what the board shows. */
  lemma CopyWhilePollingExactly(texts: Texts, w: World, items: seq<Item>)
    requires Shape(w) && texts.textOf(items).Some? && texts.textOf(items).value != ""
    ensures var w' := PanelWorker(texts, w, OneCopy(Foreign(true, items)), [], Accepts);
            && !Holding(w') && !Live(w') && w'.lastUser == items
            && Readable(w'.board.items) == Readable(w.board.items)
            && (ShowsUser(w') <==> Readable(items) == Readable(w.board.items))
  {
    hide Readable, Shape, Poll, PanelWorker, UserAfterCapture, BeforePolling, Holding, Live;
    var env := OneCopy(Foreign(true, items));
    OneCopyMeaning(w, Foreign(true, items));
    CaptureDisplaces(texts, w, env, Accepts);
  }

  lemma RunMore(texts: Texts, w: World, events: seq<Event>, e: Event)
    ensures RunFrom(texts, w, events + [e]) == Step(texts, RunFrom(texts, w, events), e)
  {
    assert (events + [e])[..|events|] == events;
  }

  lemma RunTwo(texts: Texts, w: World, e1: Event, e2: Event)
    ensures RunFrom(texts, w, [e1, e2]) == Step(texts, Step(texts, w, e1), e2)
  {
    hide Step;
    RunMore(texts, w, [], e1);
    RunMore(texts, w, [e1], e2);
    assert [] + [e1] == [e1] && [e1] + [e2] == [e1, e2];
  }

  lemma RunMoreTwo(texts: Texts, w: World, e1: Event, e2: Event, e3: Event)
    ensures RunFrom(texts, w, [e1, e2, e3, e3]) == Step(texts, Step(texts, RunFrom(texts, w, [e1, e2]), e3), e3)
  {
    hide Step;
    RunMore(texts, w, [e1, e2], e3);
    RunMore(texts, w, [e1, e2, e3], e3);
    assert [e1, e2] + [e3] == [e1, e2, e3] && [e1, e2, e3] + [e3] == [e1, e2, e3, e3];
  }

  /** From a fresh start: two pastes inside the delay, and the user's clipboard holds the first of Stet's texts. */
  lemma TwoPastesLeaveStetsText(texts: Texts, b: Board, first: string, second: string)
    requires first != "" && second != ""
    ensures var paste := PasteEnv(true, true, Accepts, true, Accepts);
            var w := Run(texts, b, [Pastes(first, paste), Pastes(second, paste),
                                    RestoresLater(0, Accepts), RestoresLater(0, Accepts)]);
            && w.pending == [] && !Holding(w) && w.lastUser == b.items
            && Readable(w.board.items) == Readable(texts.itemsOf(first))
  {
    hide Readable, Step, Shape, UserSafe, Live, RunFrom;
    var paste := PasteEnv(true, true, Accepts, true, Accepts);
    var e1, e2, e3 := Pastes(first, paste), Pastes(second, paste), RestoresLater(0, Accepts);
    var w1 := Step(texts, Start(b), e1);
    var w2 := Step(texts, w1, e2);
    RunTwo(texts, Start(b), e1, e2);
    RunTwo(texts, w2, e3, e3);
    RunMoreTwo(texts, Start(b), e1, e2, e3);
    StartSafe(texts, b);
    StepShape(texts, Start(b), e1);
    FirstPasteSafe(texts, b, first, paste);
    PasteLands(texts, Start(b), first, paste);
    PasteLands(texts, w1, second, paste);
    OneFewer(texts, w2);
    OneFewer(texts, Step(texts, w2, e3));
    NoneLive(Step(texts, Step(texts, w2, e3), e3));
    OverlappingPasteExactly(texts, w1, second, paste, [e3, e3]);
  }

  lemma NoneLive(w: World)
    requires w.pending == []
    ensures !Live(w)
  {
  }

  lemma FirstPasteSafe(texts: Texts, b: Board, text: string, env: PasteEnv)
    requires env.write.Accepts? && env.mayPost
    ensures UserSafe(Step(texts, Start(b), Pastes(text, env)))
  {
    hide Readable, Step;
    StartSafe(texts, b);
    PasteExactly(texts, Start(b), text, env);
  }

  lemma PasteLands(texts: Texts, w: World, text: string, env: PasteEnv)
    requires text != "" && env.activates && env.readable && env.mayPost && env.write.Accepts?
    ensures var w' := Step(texts, w, Pastes(text, env));
            && w'.board.items == texts.itemsOf(text) && Live(w') && |w'.pending| == |w.pending| + 1
            && w'.last == w.last && w'.lastUser == w.lastUser
  {
    hide Readable;
  }

  /** From a fresh start: a blank silent capture and then another capture, and the first copy stays for good. */
  lemma TwoCapturesLeaveTheCopy(texts: Texts, b: Board, first: seq<Item>, second: seq<Item>)
    requires texts.textOf(first).Some? && texts.textOf(first).value != ""
    requires texts.textOf(second).Some? && texts.textOf(second).value != ""
    ensures var w1 := Run(texts, b, [Captures(OneCopy(Foreign(false, first)))]);
            var w := PanelWorker(texts, w1, OneCopy(Foreign(false, second)), [], Accepts);
            && Holding(w1) && !Holding(w) && !Live(w) && w.lastUser == b.items
            && Readable(w.board.items) == Readable(first)
  {
    hide Readable, Poll, PanelWorker, UserAfterCapture, BeforePolling, Step, Holding, Live, Shape;
    var e1 := Captures(OneCopy(Foreign(false, first)));
    StartSafe(texts, b);
    RunMore(texts, Start(b), [], e1);
    assert [] + [e1] == [e1];
    OneCopyMeaning(Start(b), Foreign(false, first));
    CaptureSeen(texts, Start(b), OneCopy(Foreign(false, first)));
    CopyOnBoard(texts, Start(b), first);
    var w1 := Step(texts, Start(b), e1);
    StepShape(texts, Start(b), e1);
    OneCopyMeaning(w1, Foreign(false, second));
    CaptureDisplaces(texts, w1, OneCopy(Foreign(false, second)), Accepts);
  }

  lemma CopyOnBoard(texts: Texts, w: World, items: seq<Item>)
    requires texts.textOf(items).Some? && texts.textOf(items).value != ""
    ensures Step(texts, w, Captures(OneCopy(Foreign(false, items)))).board.items == items
  {
    OneCopyMeaning(w, Foreign(false, items));
  }
}
