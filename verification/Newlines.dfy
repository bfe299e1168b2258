/**
  Line endings on the way to the Windows clipboard and back: the expander that writes CR LF, the
  canonicaliser that selections are compared by, and the test that decides whether a paste is undone.
*/
module Newlines {
  const CR: char := '\r'
  const LF: char := '\n'
  const NUL: char := 0 as char

  /** Every CR LF pair, from the left, becomes LF. */
  function JoinPairs(s: string): string
    decreases |s|
  {
    if s == [] then []
    else if |s| >= 2 && s[0] == CR && s[1] == LF then [LF] + JoinPairs(s[2..])
    else [s[0]] + JoinPairs(s[1..])
  }

  function CrToLf(s: string): string {
    if s == [] then [] else [if s[0] == CR then LF else s[0]] + CrToLf(s[1..])
  }

  function LfToPairs(s: string): string {
    if s == [] then [] else (if s[0] == LF then [CR, LF] else [s[0]]) + LfToPairs(s[1..])
  }

  function Canonical(s: string): string {
    CrToLf(JoinPairs(s))
  }

  function Expanded(s: string): string {
    LfToPairs(CrToLf(JoinPairs(s)))
  }

  /** What reading the clipboard gives back: the text up to a NUL. */
  function UpToNul(s: string): string {
    if s == [] || s[0] == NUL then [] else [s[0]] + UpToNul(s[1..])
  }

  function ReadBack(s: string): string {
    UpToNul(Expanded(s))
  }

  /** Every CR is followed by LF and every LF preceded by CR. */
  predicate Paired(s: string)
    decreases |s|
  {
    if s == [] then true
    else if s[0] == CR then |s| >= 2 && s[1] == LF && Paired(s[2..])
    else s[0] != LF && Paired(s[1..])
  }

  predicate PairedAt(s: string, i: nat)
    requires i < |s|
  {
    && (s[i] == CR ==> i + 1 < |s| && s[i + 1] == LF)
    && (s[i] == LF ==> i > 0 && s[i - 1] == CR)
  }

  lemma {:induction false} PairedMeaning(s: string)
    ensures Paired(s) <==> forall i | 0 <= i < |s| :: PairedAt(s, i)
    decreases |s|
  {
    if s != [] {
      if PairedAt(s, 0) {
        var n := if s[0] == CR then 2 else 1;
        var t := s[n..];
        PairedMeaning(t);
        assert PairedAt(s, n - 1);
        assert forall i | 0 <= i < |t| :: PairedAt(t, i) <==> PairedAt(s, i + n);
        assert forall i | n <= i < |s| :: PairedAt(s, i) <==> PairedAt(t, i - n);
      }
    }
  }

  lemma {:induction false} CrToLfClean(s: string)
    ensures CR !in CrToLf(s)
    ensures CR !in s ==> CrToLf(s) == s
  {
    if s != [] {
      CrToLfClean(s[1..]);
      assert CR !in s ==> CR !in s[1..];
    }
  }

  lemma {:induction false} JoinPairsKeeps(s: string)
    requires CR !in s
    ensures JoinPairs(s) == s
    decreases |s|
  {
    if s != [] {
      assert s[0] in s;
      assert CR !in s[1..];
      JoinPairsKeeps(s[1..]);
      assert s == [s[0]] + s[1..];
    }
  }

  /** Joining the pairs that expansion made gives back the text. */
  lemma {:induction false} JoinPairsInverts(s: string)
    requires CR !in s
    ensures JoinPairs(LfToPairs(s)) == s
    decreases |s|
  {
    if s != [] {
      assert s[0] in s;
      assert CR !in s[1..];
      JoinPairsInverts(s[1..]);
      var rest := LfToPairs(s[1..]);
      assert s == [s[0]] + s[1..];
      if s[0] == LF {
        assert LfToPairs(s) == [CR, LF] + rest;
        assert ([CR, LF] + rest)[2..] == rest;
      } else {
        assert LfToPairs(s) == [s[0]] + rest;
        assert ([s[0]] + rest)[1..] == rest;
      }
    }
  }

  /**
    Expansion never changes what a selection counts as, expansion and canonical form are idempotent,
    and text without CR comes back from the clipboard's form unchanged.
  */
  lemma CanonicalExpanded(s: string)
    ensures Canonical(Expanded(s)) == Canonical(s)
    ensures Canonical(Canonical(s)) == Canonical(s)
    ensures Expanded(Expanded(s)) == Expanded(s)
    ensures CR !in Canonical(s)
    ensures CR !in s ==> Canonical(s) == s && Canonical(Expanded(s)) == s
  {
    var c := Canonical(s);
    CrToLfClean(JoinPairs(s));
    JoinPairsInverts(c);
    JoinPairsKeeps(c);
    CrToLfClean(c);
    if CR !in s {
      JoinPairsKeeps(s);
      CrToLfClean(s);
    }
  }

  /** Two texts look the same on the clipboard exactly when they count as the same selection. */
  lemma ExpandedSameIffCanonicalSame(s: string, t: string)
    ensures Expanded(s) == Expanded(t) <==> Canonical(s) == Canonical(t)
  {
    CanonicalExpanded(s);
    CanonicalExpanded(t);
  }

  lemma {:induction false} ExpansionIsPaired(s: string)
    requires CR !in s
    ensures Paired(LfToPairs(s))
    decreases |s|
  {
    if s != [] {
      assert s[0] in s;
      assert CR !in s[1..];
      ExpansionIsPaired(s[1..]);
      var rest := LfToPairs(s[1..]);
      assert ([CR, LF] + rest)[2..] == rest && ([s[0]] + rest)[1..] == rest;
    }
  }

  lemma {:induction false} PairedIsFixed(s: string)
    requires Paired(s)
    ensures Expanded(s) == s
    decreases |s|
  {
    if s != [] {
      if s[0] == CR {
        PairedIsFixed(s[2..]);
        var c := JoinPairs(s[2..]);
        assert JoinPairs(s) == [LF] + c;
        assert CrToLf([LF] + c) == [LF] + CrToLf(c) by { assert ([LF] + c)[1..] == c; }
        var d := CrToLf(c);
        assert LfToPairs([LF] + d) == [CR, LF] + LfToPairs(d) by { assert ([LF] + d)[1..] == d; }
        assert s == [CR, LF] + s[2..];
      } else {
        PairedIsFixed(s[1..]);
        var c := JoinPairs(s[1..]);
        assert JoinPairs(s) == [s[0]] + c;
        assert CrToLf([s[0]] + c) == [s[0]] + CrToLf(c) by { assert ([s[0]] + c)[1..] == c; }
        var d := CrToLf(c);
        assert LfToPairs([s[0]] + d) == [s[0]] + LfToPairs(d) by { assert ([s[0]] + d)[1..] == d; }
        assert s == [s[0]] + s[1..];
      }
    }
  }

  /** Expansion leaves a text alone exactly when every CR is followed by LF and every LF preceded by CR. */
  lemma {:induction false} ExpandedFixedExactly(s: string)
    ensures Expanded(s) == s <==> forall i | 0 <= i < |s| :: PairedAt(s, i)
  {
    PairedMeaning(s);
    CrToLfClean(JoinPairs(s));
    ExpansionIsPaired(Canonical(s));
    if Paired(s) {
      PairedIsFixed(s);
    }
  }

  lemma {:induction false} UpToNulFixed(s: string)
    ensures UpToNul(s) <= s
    ensures UpToNul(s) == s <==> NUL !in s
  {
    if s != [] && s[0] != NUL {
      UpToNulFixed(s[1..]);
      assert s == [s[0]] + s[1..];
    }
  }

  lemma {:induction false} ExpansionLength(s: string)
    ensures |LfToPairs(s)| >= |s|
    ensures |CrToLf(s)| == |s|
    ensures NUL in LfToPairs(s) <==> NUL in s
    ensures NUL in CrToLf(s) <==> NUL in s
  {
    if s != [] {
      ExpansionLength(s[1..]);
      assert s == [s[0]] + s[1..];
    }
  }

  lemma {:induction false} JoinPairsNul(s: string)
    ensures NUL in JoinPairs(s) <==> NUL in s
    decreases |s|
  {
    if s != [] {
      if |s| >= 2 && s[0] == CR && s[1] == LF {
        JoinPairsNul(s[2..]);
        assert s == [CR, LF] + s[2..];
      } else {
        JoinPairsNul(s[1..]);
        assert s == [s[0]] + s[1..];
      }
    }
  }

  lemma {:induction false} UpToNulPrefixLength(s: string)
    ensures NUL !in UpToNul(s)
  {
    if s != [] && s[0] != NUL {
      UpToNulPrefixLength(s[1..]);
    }
  }

  /**
    After a paste the old clipboard is put back only if reading the clipboard gives the pasted text:
    that is exactly when the text has no NUL and only CR LF line endings. Text with a bare LF - or a
    bare CR - never passes, although nobody touched the clipboard.
  */
  lemma PasteRecognisedExactly(text: string)
    ensures ReadBack(text) == text <==> (forall i | 0 <= i < |text| :: PairedAt(text, i)) && NUL !in text
  {
    ExpandedFixedExactly(text);
    UpToNulFixed(Expanded(text));
    UpToNulPrefixLength(Expanded(text));
    JoinPairsNul(text);
    ExpansionLength(JoinPairs(text));
    ExpansionLength(Canonical(text));
  }
}
