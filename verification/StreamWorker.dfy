/**
  The streaming worker: its run thread, callers of stop, and watchdog timers that fire on their own.

  `Interfere` is everything the other threads may do between two steps of the run thread, any number
  of times and in any order; what `Run` ensures therefore holds in every interleaving.
*/
module StreamWorker {
  import opened Wrappers
  import opened Strings
  import opened StreamText

  /** A timer: built, running, cancelled, expired, past setting the abort flag, past cancelling the watchdog. */
  datatype Phase = Created | Live | Cancelled | Expired | Aborting | Finished

  datatype Failure = ConnectionLost | OtherFailure

  datatype Terminal = Done(payload: string) | TimedOut | Failed(failure: Failure)

  /** A field of a streamed delta: absent or falsy, a string, or something that cannot be appended. */
  datatype Field = Falsy | Str(s: string) | NotText

  datatype Line = Blank | NotData | DoneMark | Malformed | Delta(content: Field, reasoning: Field)

  /** What the response hands out next: a line, or an exception that ends it. */
  datatype Raw = Got(line: Line) | Raises(failure: Failure)

  predicate Truthy(f: Field) {
    f.NotText? || (f.Str? && f.s != "")
  }

  function Text(f: Field): string {
    if f.Str? then f.s else ""
  }

  /** What one line adds to the answer; a reasoning field that cannot be appended loses the content too. */
  function ContentOf(l: Line): string {
    if l.Delta? && !l.reasoning.NotText? then Text(l.content) else ""
  }

  function ReasoningOf(l: Line): string {
    if l.Delta? then Text(l.reasoning) else ""
  }

  /** All content, or all reasoning, of a response up to its end mark. */
  function AllContent(raws: seq<Raw>): string {
    if raws == [] || raws[0].Raises? || raws[0].line.DoneMark? then ""
    else ContentOf(raws[0].line) + AllContent(raws[1..])
  }

  function AllReasoning(raws: seq<Raw>): string {
    if raws == [] || raws[0].Raises? || raws[0].line.DoneMark? then ""
    else ReasoningOf(raws[0].line) + AllReasoning(raws[1..])
  }

  lemma NoSteps()
    ensures AllContent([]) == "" && AllReasoning([]) == ""
  {
  }

  lemma AppendSteps(raws: seq<Raw>, i: nat, full: string, reasoning: string)
    requires i < |raws|
    ensures if raws[i].Raises? || raws[i].line.DoneMark? then
              AllContent(raws[i..]) == "" && AllReasoning(raws[i..]) == ""
            else
              && full + AllContent(raws[i..]) == (full + ContentOf(raws[i].line)) + AllContent(raws[i + 1..])
              && reasoning + AllReasoning(raws[i..]) == (reasoning + ReasoningOf(raws[i].line)) + AllReasoning(raws[i + 1..])
  {
    assert raws[i..][1..] == raws[i + 1..];
  }

  /** The answer as a function of the response alone. */
  function Answer(space: char -> bool, raws: seq<Raw>): string {
    if AllContent(raws) != "" then AllContent(raws) else ReasoningPayload(space, AllReasoning(raws))
  }

  function Flatten(tokens: seq<string>): string {
    if tokens == [] then "" else Flatten(tokens[..|tokens| - 1]) + tokens[|tokens| - 1]
  }

  predicate HasFired(timers: seq<Phase>) {
    exists i :: 0 <= i < |timers| && timers[i] in {Aborting, Finished}
  }

  lemma FiredSame(a: seq<Phase>, b: seq<Phase>)
    requires |a| <= |b|
    requires forall i | 0 <= i < |a| :: a[i] in {Aborting, Finished} <==> b[i] in {Aborting, Finished}
    requires forall i | |a| <= i < |b| :: b[i] !in {Aborting, Finished}
    ensures HasFired(a) <==> HasFired(b)
  {
    if HasFired(a) {
      var i :| 0 <= i < |a| && a[i] in {Aborting, Finished};
      assert b[i] in {Aborting, Finished};
    }
  }

  class Worker {
    const space: char -> bool
    var stopped: bool
    var timeoutAborted: bool
    var watchdog: Option<nat>
    var timers: seq<Phase>
    var tokens: seq<string>
    var terminals: seq<Terminal>

    /** Only the current watchdog can still be running, and the abort flag is raised only by an expired timer. */
    ghost predicate Valid()
      reads this
    {
      && (watchdog.Some? ==> watchdog.value < |timers|)
      && (forall i | 0 <= i < |timers| :: timers[i] in {Created, Live} ==> watchdog == Some(i))
      && (timeoutAborted <==> HasFired(timers))
    }

    predicate Quiet()
      reads this
    {
      !stopped && !timeoutAborted
    }

    constructor (space: char -> bool)
      ensures Valid() && this.space == space && !stopped && !timeoutAborted
      ensures watchdog == None && timers == [] && tokens == [] && terminals == []
    {
      this.space := space;
      stopped, timeoutAborted, watchdog := false, false, None;
      timers, tokens, terminals := [], [], [];
    }

    method CancelWatchdog()
      requires Valid()
      modifies this`watchdog, this`timers
      ensures Valid() && watchdog == None && |timers| == |old(timers)|
      ensures forall i | 0 <= i < |timers| ::
                timers[i] == if old(timers)[i] in {Created, Live} then Cancelled else old(timers)[i]
    {
      if watchdog.Some? {
        var i := watchdog.value;
        if timers[i] == Created || timers[i] == Live {
          timers := timers[i := Cancelled];
        }
        watchdog := None;
      }
      FiredSame(old(timers), timers);
    }

    /** Replaces the watchdog, unless the stream is being stopped. */
    method KickWatchdog()
      requires Valid()
      modifies this`watchdog, this`timers
      ensures Valid()
      ensures old(timers) == [] || |timers| >= |old(timers)|
      ensures !Quiet() ==> watchdog == None
      ensures Quiet() ==> watchdog == Some(|old(timers)|) && |timers| == |old(timers)| + 1 && timers[|old(timers)|] == Live
      ensures forall i | 0 <= i < |old(timers)| ::
                i < |timers| && timers[i] == if old(timers)[i] in {Created, Live} then Cancelled else old(timers)[i]
    {
      CancelWatchdog();
      if !stopped && !timeoutAborted {
        watchdog := Some(|timers|);
        FiredSame(timers, timers + [Live]);
        timers := timers + [Live];
      }
    }

    method Stop()
      requires Valid()
      modifies this`stopped, this`watchdog, this`timers
      ensures Valid() && stopped && watchdog == None
      ensures forall i | 0 <= i < |timers| :: timers[i] !in {Created, Live}
    {
      stopped := true;
      CancelWatchdog();
    }

    /**
      One step of some other thread: a caller of stop sets the flag or cancels, a running timer
      expires, an expired one raises the abort flag and then cancels whatever watchdog there is.
    */
    method OtherStep(kind: nat, i: nat)
      requires Valid()
      modifies this`stopped, this`timeoutAborted, this`watchdog, this`timers
      ensures Valid() && |timers| == |old(timers)|
      ensures (old(stopped) ==> stopped) && (old(timeoutAborted) ==> timeoutAborted)
      ensures watchdog == old(watchdog) || (watchdog == None && (stopped || timeoutAborted))
      ensures forall j | 0 <= j < |timers| :: timers[j] in {Created, Live} ==> old(timers)[j] == timers[j]
      ensures forall j | 0 <= j < |timers| && old(timers)[j] in {Created, Cancelled} :: timers[j] in {old(timers)[j], Cancelled}
      ensures watchdog == old(watchdog) ==> forall j | 0 <= j < |timers| && old(timers)[j] == Created :: timers[j] == Created
    {
      if kind == 0 {
        stopped := true;
      } else if kind == 1 && stopped {
        CancelWatchdog();
      } else if i < |timers| {
        match timers[i] {
          case Live =>
            timers := timers[i := Expired];
            FiredSame(old(timers), timers);
          case Expired =>
            timeoutAborted := true;
            timers := timers[i := Aborting];
            assert timers[i] in {Aborting, Finished};
          case Aborting =>
            assert timers[i] in {Aborting, Finished};
            CancelWatchdog();
            timers := timers[i := Finished];
            assert timers[i] in {Aborting, Finished};
          case _ =>
        }
      }
    }

    /** Any number of steps of other threads. */
    method Interfere()
      requires Valid()
      modifies this`stopped, this`timeoutAborted, this`watchdog, this`timers
      ensures Valid() && |timers| == |old(timers)|
      ensures (old(stopped) ==> stopped) && (old(timeoutAborted) ==> timeoutAborted)
      ensures watchdog == old(watchdog) || (watchdog == None && (stopped || timeoutAborted))
      ensures forall j | 0 <= j < |timers| :: timers[j] in {Created, Live} ==> old(timers)[j] == timers[j]
      ensures forall j | 0 <= j < |timers| && old(timers)[j] in {Created, Cancelled} :: timers[j] in {old(timers)[j], Cancelled}
      ensures watchdog == old(watchdog) ==> forall j | 0 <= j < |timers| && old(timers)[j] == Created :: timers[j] == Created
    {
      var steps: nat := *;
      while steps > 0
        invariant Valid() && |timers| == |old(timers)|
        invariant (old(stopped) ==> stopped) && (old(timeoutAborted) ==> timeoutAborted)
        invariant watchdog == old(watchdog) || (watchdog == None && (stopped || timeoutAborted))
        invariant forall j | 0 <= j < |timers| :: timers[j] in {Created, Live} ==> old(timers)[j] == timers[j]
        invariant forall j | 0 <= j < |timers| && old(timers)[j] in {Created, Cancelled} :: timers[j] in {old(timers)[j], Cancelled}
        invariant watchdog == old(watchdog) ==> forall j | 0 <= j < |timers| && old(timers)[j] == Created :: timers[j] == Created
      {
        var kind: nat, i: nat := *, *;
        OtherStep(kind, i);
        steps := steps - 1;
      }
    }

    /** No signal has been sent that the flags do not account for. */
    ghost predicate Streaming(full: string)
      reads this
    {
      && Valid() && terminals == []
      && Flatten(tokens) <= full
      && (Quiet() ==> Flatten(tokens) == full)
    }

    /** One delta: kick the watchdog, append, and pass the token on unless the stream is being stopped. */
    method HandleDelta(l: Line, full: string, reasoning: string) returns (full': string, reasoning': string)
      requires l.Delta? && Streaming(full)
      modifies this`stopped, this`timeoutAborted, this`watchdog, this`timers, this`tokens
      ensures Streaming(full')
      ensures (old(stopped) ==> stopped) && (old(timeoutAborted) ==> timeoutAborted)
      ensures full' == full + ContentOf(l) && reasoning' == reasoning + ReasoningOf(l)
    {
      full', reasoning' := full, reasoning;
      if Truthy(l.content) || Truthy(l.reasoning) {
        Interfere();
        KickWatchdog();
      }
      if Truthy(l.reasoning) {
        if l.reasoning.NotText? {
          return;
        }
        reasoning' := reasoning' + l.reasoning.s;
      }
      if Truthy(l.content) {
        if l.content.NotText? {
          return;
        }
        full' := full' + l.content.s;
        Interfere();
        if !stopped && !timeoutAborted {
          tokens := tokens + [l.content.s];
          assert tokens[..|tokens| - 1] == old(tokens);
        }
      }
    }

    /** The loop over the response: until its end, its end mark, an exception, or a raised flag. */
    method ReadStream(raws: seq<Raw>) returns (full: string, reasoning: string, raised: Option<Failure>)
      requires Streaming("")
      modifies this`stopped, this`timeoutAborted, this`watchdog, this`timers, this`tokens
      ensures Streaming(full)
      ensures (old(stopped) ==> stopped) && (old(timeoutAborted) ==> timeoutAborted)
      ensures raised == None && Quiet() ==> full == AllContent(raws) && reasoning == AllReasoning(raws)
    {
      hide Flatten, Worker.Valid, AllContent, AllReasoning;
      full, reasoning, raised := "", "", None;
      var i := 0;
      assert raws[0..] == raws;
      NoSteps();
      while i < |raws|
        invariant i <= |raws| && Streaming(full)
        invariant (old(stopped) ==> stopped) && (old(timeoutAborted) ==> timeoutAborted)
        invariant AllContent(raws) == full + AllContent(raws[i..])
        invariant AllReasoning(raws) == reasoning + AllReasoning(raws[i..])
      {
        assert raws[i..][0] == raws[i] && raws[i..][1..] == raws[i + 1..];
        AppendSteps(raws, i, full, reasoning);
        if raws[i].Raises? {
          raised := Some(raws[i].failure);
          return;
        }
        Interfere();
        if stopped || timeoutAborted {
          return;
        }
        match raws[i].line {
          case DoneMark =>
            Interfere();
            CancelWatchdog();
            return;
          case Delta(_, _) =>
            full, reasoning := HandleDelta(raws[i].line, full, reasoning);
          case _ =>
        }
        i := i + 1;
      }
      assert raws[i..] == [];
    }

    method Emit(t: Terminal)
      modifies this`terminals
      ensures terminals == old(terminals) + [t]
      ensures |terminals| == |old(terminals)| + 1 && terminals[|old(terminals)|] == t
    {
      terminals := terminals + [t];
    }

    /**
      The run thread, for a response that fails to open (`open`) or yields `raws`. `died` is the one
      way out without cleaning up: a stop between building the first timer and starting it.
    */
    method Run(watched: bool, open: Option<Failure>, raws: seq<Raw>) returns (died: bool)
      requires Valid() && watchdog == None && timers == [] && tokens == [] && terminals == [] && !timeoutAborted
      modifies this`stopped, this`timeoutAborted, this`watchdog, this`timers, this`tokens, this`terminals
      ensures Valid() && (old(stopped) ==> stopped)
      // At most one terminal signal, and exactly one if nobody ever stopped the worker.
      ensures |terminals| <= 1 && (!stopped ==> |terminals| == 1)
      ensures died ==> stopped && terminals == []
      // An answer is a function of the response alone, and with any content it is exactly what was streamed.
      ensures terminals != [] && terminals[0].Done? ==>
                var p := terminals[0].payload;
                && p == Answer(space, raws)
                && Flatten(tokens) == AllContent(raws)
                && (tokens != [] && Flatten(tokens) != "" ==> p == Flatten(tokens))
      ensures terminals != [] && terminals[0].TimedOut? ==> timeoutAborted
      // No timer outlives the run.
      ensures watchdog == None && forall i | 0 <= i < |timers| :: timers[i] !in {Created, Live}
    {
      hide Flatten, AllContent, AllReasoning, ReasoningPayload;
      died := false;
      if stopped {
        return;
      }
      if watched {
        died := ArmFirst();
        if died {
          return;
        }
      }
      Interfere();
      var full, reasoning, raised := "", "", open;
      NoTokens();
      EmptyFallback(space);
      if open == None {
        full, reasoning, raised := ReadStream(raws);
      }
      Conclude(full, reasoning, raised);
      Interfere();
      CancelWatchdog();
    }

    /**
      Builds the first timer and then starts it, not under the lock. A stop before the field is read again ends the
      thread; one between that and the start lets it start a timer that has been cancelled and never fires.
    */
    method ArmFirst() returns (died: bool)
      requires Valid() && watchdog == None && timers == [] && !timeoutAborted
      modifies this`stopped, this`timeoutAborted, this`watchdog, this`timers
      ensures Valid() && (old(stopped) ==> stopped) && !timeoutAborted && |timers| == 1
      ensures died ==> stopped && watchdog == None && timers[0] == Cancelled
      ensures !died ==> (watchdog == Some(0) && timers[0] == Live)
                        || (stopped && watchdog == None && timers[0] == Cancelled)
    {
      watchdog, timers := Some(0), [Created];
      Interfere();
      if watchdog == None {
        return true;
      }
      var loaded := watchdog.value;
      Interfere();
      if timers[loaded] == Created {
        FiredSame(timers, timers[loaded := Live]);
        timers := timers[loaded := Live];
      }
      died := false;
    }

    /** After the response: the one terminal signal, if any. */
    method Conclude(full: string, reasoning: string, raised: Option<Failure>)
      requires Streaming(full)
      modifies this`stopped, this`timeoutAborted, this`watchdog, this`timers, this`terminals
      ensures Valid() && (old(stopped) ==> stopped) && (old(timeoutAborted) ==> timeoutAborted)
      ensures terminals == [] ==> stopped
      ensures |terminals| <= 1
      ensures terminals != [] && terminals[0].TimedOut? ==> timeoutAborted
      ensures terminals != [] && terminals[0].Done? ==>
                var p := terminals[0].payload;
                && raised == None && !old(stopped) && !old(timeoutAborted)
                && p == if full == "" && reasoning != "" then ReasoningPayload(space, reasoning) else full
    {
      hide Flatten, ReasoningPayload;
      if raised == None {
        Interfere();
        CancelWatchdog();
        Interfere();
        if timeoutAborted {
          Emit(TimedOut);
        } else {
          var payload := full;
          if full == "" && reasoning != "" {
            payload := ReasoningPayload(space, reasoning);
          }
          Interfere();
          if !stopped {
            Emit(Done(payload));
          }
        }
      } else {
        Interfere();
        if timeoutAborted {
          Emit(TimedOut);
        } else {
          Interfere();
          if !stopped {
            Emit(Failed(raised.value));
          }
        }
      }
    }
  }

  lemma NoTokens()
    ensures Flatten([]) == ""
  {
  }

  /** Nothing streamed and no reasoning: the fallback would be empty too. */
  lemma EmptyFallback(space: char -> bool)
    ensures ReasoningPayload(space, "") == ""
  {
    assert !Contains("", "</think>") && !Contains("", "<|im_end|>");
  }
}
