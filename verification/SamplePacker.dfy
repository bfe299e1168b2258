/** Greedy packing of evaluation samples into few model calls. */
module SamplePacker {
  import opened Strings

  const WORD_LIMIT: nat := 40

  datatype Sample = Sample(id: string, input: string)

  type Pack = seq<Sample>

  /** The judgements the packer asks for: whether a text reads as prose, and which characters separate words. */
  datatype Judge = Judge(prose: string -> bool, space: char -> bool)
  {
    predicate Packable(s: Sample) {
      prose(s.input) && !Contains(s.input, "://") && '@' !in s.input && '\n' !in s.input
    }

    /** The number of words that splitting at white space yields. */
    function CountWords(text: string, inWord: bool): nat {
      if text == [] then 0
      else if space(text[0]) then CountWords(text[1..], false)
      else (if inWord then 0 else 1) + CountWords(text[1..], true)
    }

    function Words(s: Sample): nat {
      CountWords(s.input, false)
    }

    /** Words plus one separator between neighbours. */
    function Weight(p: Pack): nat {
      if p == [] then 0
      else if |p| == 1 then Words(p[0])
      else Weight(p[..|p| - 1]) + Words(p[|p| - 1]) + 1
    }

    predicate Valid(p: Pack) {
      && p != []
      && (|p| >= 2 ==> Weight(p) <= WORD_LIMIT && forall s | s in p :: Packable(s))
    }

    /** The samples in order, cut into valid packs. */
    predicate IsPacking(packs: seq<Pack>, samples: seq<Sample>) {
      Flatten(packs) == samples && forall p | p in packs :: Valid(p)
    }

    /** No packing has fewer packs than n, and one with n packs has a last pack of at least `tail` samples. */
    ghost predicate Ahead(samples: seq<Sample>, n: nat, tail: nat) {
      forall packs | IsPacking(packs, samples) ::
        |packs| >= n && (|packs| == n ==> (packs == [] ==> tail == 0) && (packs != [] ==> |packs[|packs| - 1]| >= tail))
    }
  }

  function Flatten(packs: seq<Pack>): seq<Sample> {
    if packs == [] then [] else Flatten(packs[..|packs| - 1]) + packs[|packs| - 1]
  }

  function Closed(packs: seq<Pack>, current: Pack): seq<Pack> {
    if current == [] then packs else packs + [current]
  }

  lemma {:induction false} WeightSuffix(j: Judge, p: Pack, i: nat)
    requires i < |p|
    ensures j.Weight(p[i..]) <= j.Weight(p)
    decreases |p|
  {
    if |p[i..]| >= 2 {
      var q := p[..|p| - 1];
      WeightSuffix(j, q, i);
      assert p[i..][..|p[i..]| - 1] == q[i..];
    } else if |p| >= 2 {
      assert p[i..] == [p[|p| - 1]];
    } else {
      assert p[i..] == p;
    }
  }

  lemma WeightAppend(j: Judge, p: Pack, s: Sample)
    ensures j.Weight(p + [s]) == if p == [] then j.Words(s) else j.Weight(p) + j.Words(s) + 1
  {
    assert (p + [s])[..|p|] == p;
  }

  /** Taking the last sample off a packing leaves a packing of the rest. */
  lemma DropLast(j: Judge, packs: seq<Pack>, samples: seq<Sample>, s: Sample)
    requires j.IsPacking(packs, samples + [s])
    ensures packs != []
    ensures var last := packs[|packs| - 1];
            && last != [] && last[|last| - 1] == s
            && var rest := packs[..|packs| - 1];
               if |last| == 1 then j.IsPacking(rest, samples)
               else j.IsPacking(rest + [last[..|last| - 1]], samples)
  {
    var last := packs[|packs| - 1];
    var rest := packs[..|packs| - 1];
    assert last in packs && j.Valid(last);
    var front, end := last[..|last| - 1], last[|last| - 1];
    assert last == front + [end];
    assert (Flatten(rest) + front) + [end] == samples + [s];
    assert (samples + [s])[|samples|] == s;
    assert Flatten(rest) + front == (samples + [s])[..|samples|] == samples;
    if |last| >= 2 {
      assert (rest + [front])[..|rest|] == rest;
      forall s' | s' in front ensures j.Packable(s') {
        assert s' in last;
      }
    } else {
      assert Flatten(rest) + front == Flatten(rest);
    }
  }

  /** The last samples of a packing's last pack are the last samples packed. */
  lemma TailOf(packs: seq<Pack>, samples: seq<Sample>, n: nat)
    requires Flatten(packs) == samples && packs != [] && n <= |packs[|packs| - 1]|
    ensures var last := packs[|packs| - 1];
            n <= |samples| && last[|last| - n..] == samples[|samples| - n..]
  {
    var last := packs[|packs| - 1];
    assert samples == Flatten(packs[..|packs| - 1]) + last;
  }

  /** A sample that must stand alone costs every packing one more pack. */
  lemma AheadAlone(j: Judge, samples: seq<Sample>, n: nat, tail: nat, s: Sample)
    requires j.Ahead(samples, n, tail) && !j.Packable(s)
    ensures j.Ahead(samples + [s], n + 1, 0)
  {
    forall packs | j.IsPacking(packs, samples + [s]) ensures |packs| >= n + 1 {
      DropLast(j, packs, samples, s);
      var last := packs[|packs| - 1];
      assert last in packs && s in last;
    }
  }

  /** A sample added to the current pack. */
  lemma AheadExtend(j: Judge, samples: seq<Sample>, n: nat, current: Pack, s: Sample)
    requires j.Ahead(samples, n, |current|)
    ensures current != [] ==> j.Ahead(samples + [s], n, |current| + 1)
  {
    if current != [] {
      forall packs | j.IsPacking(packs, samples + [s])
        ensures |packs| >= n && packs != [] && (|packs| == n ==> |packs[|packs| - 1]| >= |current| + 1)
      {
        DropLast(j, packs, samples, s);
        var last, rest := packs[|packs| - 1], packs[..|packs| - 1];
        if |last| == 1 {
          assert |rest| >= n;
        } else {
          var shorter := rest + [last[..|last| - 1]];
          assert j.IsPacking(shorter, samples);
          assert shorter[|shorter| - 1] == last[..|last| - 1];
        }
      }
    }
  }

  /** A pack opened because the sample does not fit the current one, or because there is none to extend. */
  lemma AheadOpen(j: Judge, samples: seq<Sample>, n: nat, current: Pack, s: Sample)
    requires j.Ahead(samples, n, |current|)
    requires |current| <= |samples| && current == samples[|samples| - |current|..]
    requires current != [] ==> j.Weight(current + [s]) > WORD_LIMIT
    requires current == [] && samples != [] ==> !j.Packable(samples[|samples| - 1])
    ensures j.Ahead(samples + [s], n + 1, 1)
  {
    forall packs | j.IsPacking(packs, samples + [s])
      ensures packs != [] && |packs| >= n + 1 && |packs[|packs| - 1]| >= 1
    {
      DropLast(j, packs, samples, s);
      var last, rest := packs[|packs| - 1], packs[..|packs| - 1];
      if |last| >= 2 {
        var front := last[..|last| - 1];
        var shorter := rest + [front];
        assert shorter[|shorter| - 1] == front;
        assert last in packs;
        if |shorter| == n {
          OpenForced(j, packs, samples, current, s);
        }
      }
    }
  }

  /** No valid pack holds the whole current pack and the sample that did not fit it. */
  lemma OpenForced(j: Judge, packs: seq<Pack>, samples: seq<Sample>, current: Pack, s: Sample)
    requires Flatten(packs) == samples + [s] && packs != []
    requires |packs[|packs| - 1]| >= |current| + 1 && |packs[|packs| - 1]| >= 2
    requires |current| <= |samples| && current == samples[|samples| - |current|..]
    requires current != [] ==> j.Weight(current + [s]) > WORD_LIMIT
    requires current == [] && samples != [] ==> !j.Packable(samples[|samples| - 1])
    ensures !j.Valid(packs[|packs| - 1])
  {
    var last := packs[|packs| - 1];
    if current != [] {
      var n := |current| + 1;
      TailOf(packs, samples + [s], n);
      assert (samples + [s])[|samples| + 1 - n..] == current + [s];
      WeightSuffix(j, last, |last| - n);
    } else {
      TailOf(packs, samples + [s], 2);
      assert last[|last| - 2] == last[|last| - 2..][0] == (samples + [s])[|samples| - 1];
      assert last[|last| - 2] in last;
    }
  }

  /** What the loop knows after the samples in `done`. */
  ghost predicate Progress(j: Judge, done: seq<Sample>, packs: seq<Pack>, current: Pack, currentWords: nat) {
    && j.IsPacking(Closed(packs, current), done)
    && j.Ahead(done, |Closed(packs, current)|, |current|)
    && |current| <= |done| && current == done[|done| - |current|..]
    && (current == [] && done != [] ==> !j.Packable(done[|done| - 1]))
    && (forall s | s in current :: j.Packable(s))
    && currentWords == j.Weight(current)
  }

  lemma StepAlone(j: Judge, done: seq<Sample>, packs: seq<Pack>, current: Pack, currentWords: nat, s: Sample)
    requires Progress(j, done, packs, current, currentWords) && !j.Packable(s)
    ensures Progress(j, done + [s], Closed(packs, current) + [[s]], [], 0)
  {
    hide Judge.Packable, Judge.Weight, Judge.IsPacking, Judge.Ahead;
    AheadAlone(j, done, |Closed(packs, current)|, |current|, s);
    ClosePack(j, packs, current, done, [s]);
    NothingPacked(j);
  }

  lemma StepOpen(j: Judge, done: seq<Sample>, packs: seq<Pack>, current: Pack, currentWords: nat, s: Sample)
    requires Progress(j, done, packs, current, currentWords) && j.Packable(s)
    requires current != [] ==> currentWords + j.Words(s) + 1 > WORD_LIMIT
    ensures Progress(j, done + [s], Closed(packs, current), [s], j.Words(s))
  {
    hide Judge.Packable, Judge.Weight, Judge.Words, Judge.IsPacking, Judge.Ahead;
    WeightAppend(j, current, s);
    WeightAppend(j, [], s);
    assert [] + [s] == [s];
    AheadOpen(j, done, |Closed(packs, current)|, current, s);
    ClosePack(j, packs, current, done, [s]);
    assert (done + [s])[|done|..] == [s];
  }

  lemma StepExtend(j: Judge, done: seq<Sample>, packs: seq<Pack>, current: Pack, currentWords: nat, s: Sample)
    requires Progress(j, done, packs, current, currentWords) && j.Packable(s)
    requires current != [] && currentWords + j.Words(s) + 1 <= WORD_LIMIT
    ensures Progress(j, done + [s], packs, current + [s], currentWords + j.Words(s) + 1)
  {
    hide Judge.Packable, Judge.Weight, Judge.Words, Judge.IsPacking, Judge.Ahead;
    WeightAppend(j, current, s);
    AheadExtend(j, done, |packs| + 1, current, s);
    GrowPack(j, packs, current, done, s);
    assert (done + [s])[|done| - |current|..] == current + [s];
  }

  method PackSamples(j: Judge, samples: seq<Sample>) returns (packs: seq<Pack>)
    ensures j.IsPacking(packs, samples)
    ensures forall other | j.IsPacking(other, samples) :: |packs| <= |other|
  {
    hide Judge.Packable, Judge.Words, Progress;
    packs := [];
    var current: Pack := [];
    var currentWords: nat := 0;
    StartProgress(j);
    for i := 0 to |samples|
      invariant Progress(j, samples[..i], packs, current, currentWords)
    {
      var sample := samples[i];
      assert samples[..i + 1] == samples[..i] + [sample];
      if !j.Packable(sample) {
        StepAlone(j, samples[..i], packs, current, currentWords, sample);
        if current != [] {
          packs := packs + [current];
          current := [];
          currentWords := 0;
        } else {
          EmptyWords(j, samples[..i], packs, current, currentWords);
        }
        packs := packs + [[sample]];
        continue;
      }
      var words := j.Words(sample);
      var separator := if current != [] then 1 else 0;
      if current != [] && currentWords + words + separator > WORD_LIMIT {
        StepOpen(j, samples[..i], packs, current, currentWords, sample);
        packs := packs + [current];
        current := [];
        currentWords := 0;
        separator := 0;
      } else if current == [] {
        EmptyWords(j, samples[..i], packs, current, currentWords);
        StepOpen(j, samples[..i], packs, current, currentWords, sample);
      } else {
        StepExtend(j, samples[..i], packs, current, currentWords, sample);
      }
      assert current == [] ==> current + [sample] == [sample];
      current := current + [sample];
      currentWords := currentWords + (words + separator);
    }
    assert samples[..|samples|] == samples;
    FinalProgress(j, samples, packs, current, currentWords);
    if current != [] {
      packs := packs + [current];
    }
  }

  lemma StartProgress(j: Judge)
    ensures Progress(j, [], [], [], 0)
  {
    NothingPacked(j);
  }

  /** With no current pack the word count is zero. */
  lemma EmptyWords(j: Judge, done: seq<Sample>, packs: seq<Pack>, current: Pack, currentWords: nat)
    requires Progress(j, done, packs, current, currentWords) && current == []
    ensures currentWords == 0
  {
  }

  lemma FinalProgress(j: Judge, done: seq<Sample>, packs: seq<Pack>, current: Pack, currentWords: nat)
    requires Progress(j, done, packs, current, currentWords)
    ensures j.IsPacking(Closed(packs, current), done)
    ensures forall other | j.IsPacking(other, done) :: |Closed(packs, current)| <= |other|
  {
  }

  lemma NothingPacked(j: Judge)
    ensures j.IsPacking([], []) && j.Ahead([], 0, 0) && j.Weight([]) == 0
  {
  }

  /** Closing the current pack and starting another with one sample. */
  lemma ClosePack(j: Judge, packs: seq<Pack>, current: Pack, samples: seq<Sample>, next: Pack)
    requires j.IsPacking(Closed(packs, current), samples) && |next| == 1
    ensures j.IsPacking(Closed(packs, current) + [next], samples + next)
  {
    var closed := Closed(packs, current);
    assert (closed + [next])[..|closed|] == closed;
  }

  lemma GrowPack(j: Judge, packs: seq<Pack>, current: Pack, samples: seq<Sample>, s: Sample)
    requires current != [] && j.IsPacking(packs + [current], samples)
    requires j.Packable(s) && (forall s' | s' in current :: j.Packable(s')) && j.Weight(current + [s]) <= WORD_LIMIT
    ensures j.IsPacking(packs + [current + [s]], samples + [s])
  {
    assert (packs + [current])[..|packs|] == packs;
    assert (packs + [current + [s]])[..|packs|] == packs;
    assert Flatten(packs) + (current + [s]) == (Flatten(packs) + current) + [s];
    forall p | p in packs + [current + [s]] ensures j.Valid(p) {
      if p in packs {
        assert p in packs + [current];
      }
    }
  }
}
