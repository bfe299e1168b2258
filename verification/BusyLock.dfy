/**
  The lock that keeps two captures from running at once: taken by the handler of a hotkey without waiting, handed to
  the worker thread it starts, and released by whoever holds it last. Every order of the steps of the two is a run.
*/
module BusyLock {

  /** Where the handler on the main thread is. */
  datatype Handler = Idle | Acquired | Rechecked(silent: bool)

  /** Where one worker thread is. */
  datatype Worker = Worker(silent: bool, cleaning: bool)

  datatype State = State(locked: bool, handler: Handler, workers: map<nat, Worker>, spawned: nat,
                         acquired: nat, released: nat, lost: nat)

  const START: State := State(false, Idle, map[], 0, 0, 0, 0)

  datatype Step =
    | Fire                            // a hotkey with no window to focus: try the lock
    | WindowAppeared                  // the second look finds a window: release and leave
    | Proceed(silent: bool)           // it finds none, or failed
    | FeedbackFails                   // telling the user fails before the thread is started
    | SpawnFails                      // the thread does not start: release
    | Spawn                           // the thread starts, with the lock
    | Finish(worker: nat)             // the work is over, by its end, an early return or an exception
    | Release(worker: nat)            // the cleaning up went well
    | CleaningFails(worker: nat)      // the panel worker's clipboard restore raised; the release behind it is skipped

  predicate Enabled(s: State, step: Step) {
    match step
    case Fire => true
    case WindowAppeared => s.handler == Acquired
    case Proceed(_) => s.handler == Acquired
    case FeedbackFails => s.handler == Rechecked(true)
    case SpawnFails => s.handler.Rechecked?
    case Spawn => s.handler.Rechecked?
    case Finish(w) => w in s.workers && !s.workers[w].cleaning
    case Release(w) => w in s.workers && s.workers[w].cleaning
    case CleaningFails(w) => w in s.workers && s.workers[w].cleaning && !s.workers[w].silent
  }

  function Next(s: State, step: Step): State
    requires Enabled(s, step)
  {
    match step
    case Fire =>
      if s.locked then s else s.(locked := true, handler := Acquired, acquired := s.acquired + 1)
    case WindowAppeared => s.(locked := false, handler := Idle, released := s.released + 1)
    case Proceed(silent) => s.(handler := Rechecked(silent))
    case FeedbackFails => s.(handler := Idle, lost := s.lost + 1)
    case SpawnFails => s.(locked := false, handler := Idle, released := s.released + 1)
    case Spawn => s.(handler := Idle, workers := s.workers[s.spawned := Worker(s.handler.silent, false)], spawned := s.spawned + 1)
    case Finish(w) => s.(workers := s.workers[w := s.workers[w].(cleaning := true)])
    case Release(w) => s.(locked := false, workers := s.workers - {w}, released := s.released + 1)
    case CleaningFails(w) => s.(workers := s.workers - {w}, lost := s.lost + 1)
  }

  ghost predicate Run(steps: seq<Step>, states: seq<State>) {
    && |states| == |steps| + 1 && states[0] == START
    && forall i | 0 <= i < |steps| :: Enabled(states[i], steps[i]) && states[i + 1] == Next(states[i], steps[i])
  }

  predicate HandlerInside(s: State) {
    s.handler != Idle
  }

  /** Who holds the lock: the handler, one worker, or nobody any more who could release it. */
  function Holders(s: State): nat {
    (if HandlerInside(s) then 1 else 0) + |s.workers| + s.lost
  }

  predicate Inv(s: State) {
    && Holders(s) == (if s.locked then 1 else 0)
    && s.acquired == s.released + Holders(s)
    && forall w | w in s.workers :: w < s.spawned
  }

  lemma OneLess(m: map<nat, Worker>, w: nat)
    requires w in m
    ensures |m - {w}| == |m| - 1
  {
    assert m.Keys == (m - {w}).Keys + {w};
    KeysCount(m);
    KeysCount(m - {w});
  }

  lemma KeysCount(m: map<nat, Worker>)
    ensures |m| == |m.Keys|
  {
  }

  lemma EmptyExactly(m: map<nat, Worker>)
    ensures |m| == 0 <==> m == map[]
  {
  }

  lemma StepKeeps(s: State, step: Step)
    requires Inv(s) && Enabled(s, step)
    ensures Inv(Next(s, step))
  {
    match step
    case Finish(w) =>
      var marked := s.workers[w := s.workers[w].(cleaning := true)];
      assert marked.Keys == s.workers.Keys;
      KeysCount(s.workers);
      KeysCount(marked);
    case Spawn =>
      var more := s.workers[s.spawned := Worker(s.handler.silent, false)];
      assert s.workers == more - {s.spawned};
      OneLess(more, s.spawned);
    case Release(w) => OneLess(s.workers, w);
    case CleaningFails(w) => OneLess(s.workers, w);
    case _ =>
  }

  lemma {:induction false} RunKeeps(steps: seq<Step>, states: seq<State>, n: nat)
    requires Run(steps, states) && n <= |steps|
    ensures Inv(states[n])
  {
    if n > 0 {
      RunKeeps(steps, states, n - 1);
      StepKeeps(states[n - 1], steps[n - 1]);
    }
  }

  predicate Fails(step: Step) {
    step.FeedbackFails? || step.CleaningFails?
  }

  lemma {:induction false} NothingLost(steps: seq<Step>, states: seq<State>, n: nat)
    requires Run(steps, states) && n <= |steps|
    ensures states[n].lost == 0 <==> forall i | 0 <= i < n :: !Fails(steps[i])
  {
    if n > 0 {
      NothingLost(steps, states, n - 1);
      assert states[n] == Next(states[n - 1], steps[n - 1]);
    }
  }

  /** At no point of any run are two captures at work, or a capture and a handler inside its guarded part. */
  lemma OneAtATime(steps: seq<Step>, states: seq<State>, n: nat)
    requires Run(steps, states) && n <= |steps|
    ensures |states[n].workers| <= 1
    ensures states[n].handler != Idle ==> states[n].workers == map[]
  {
    RunKeeps(steps, states, n);
    EmptyExactly(states[n].workers);
  }

  /**
    The lock is held exactly while a handler is inside or a worker is alive, and every taking of it is matched by one
    release, if and only if neither the feedback before the start nor the cleaning up of a worker has ever raised.
  */
  lemma HeldExactly(steps: seq<Step>, states: seq<State>, n: nat)
    requires Run(steps, states) && n <= |steps|
    ensures (forall i | 0 <= i < n :: !Fails(steps[i])) <==>
              (states[n].locked <==> states[n].handler != Idle || states[n].workers != map[])
    ensures (forall i | 0 <= i < n :: !Fails(steps[i])) && states[n].handler == Idle && states[n].workers == map[] ==>
              states[n].acquired == states[n].released && !states[n].locked
  {
    RunKeeps(steps, states, n);
    NothingLost(steps, states, n);
    var s := states[n];
    EmptyExactly(s.workers);
  }

  /** After such a failure every further hotkey is ignored for good. */
  lemma {:induction false} LostForGood(steps: seq<Step>, states: seq<State>, k: nat, n: nat)
    requires Run(steps, states) && k < n <= |steps| && Fails(steps[k])
    ensures states[n].locked && states[n].handler == Idle && states[n].workers == map[]
    ensures states[n].acquired == states[k].acquired
    decreases n
  {
    RunKeeps(steps, states, k);
    RunKeeps(steps, states, n);
    NothingLost(steps, states, n);
    assert Fails(steps[k]) && 0 <= k < n;
    EmptyExactly(states[n].workers);
    if n > k + 1 {
      LostForGood(steps, states, k, n - 1);
      assert states[n] == Next(states[n - 1], steps[n - 1]) && Enabled(states[n - 1], steps[n - 1]);
    } else {
      assert states[n] == Next(states[k], steps[k]);
    }
  }
}
