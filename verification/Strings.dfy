/** The Python string operations that several parts of the model share. */
module Strings {
  import opened Wrappers

  predicate Contains(s: string, part: string) {
    part <= s || (s != [] && Contains(s[1..], part))
  }

  /** The first place where part occurs, if it does. */
  function Find(s: string, part: string): (i: Option<nat>)
    ensures i.Some? <==> Contains(s, part)
    ensures i.Some? ==> i.value + |part| <= |s| && s[i.value..i.value + |part|] == part
  {
    if part <= s then Some(0)
    else if s == [] then None
    else
      var rest := Find(s[1..], part);
      if rest.None? then None
      else
        assert s[1..][rest.value..rest.value + |part|] == s[rest.value + 1..rest.value + 1 + |part|];
        Some(rest.value + 1)
  }

  function Split(s: string, sep: string): (pieces: seq<string>)
    requires sep != ""
    ensures pieces != []
    decreases |s|
  {
    var i := Find(s, sep);
    if i.None? then [s] else [s[..i.value]] + Split(s[i.value + |sep|..], sep)
  }

  function LStrip(space: char -> bool, s: string): string {
    if s != [] && space(s[0]) then LStrip(space, s[1..]) else s
  }

  function RStrip(space: char -> bool, s: string): string {
    if s != [] && space(s[|s| - 1]) then RStrip(space, s[..|s| - 1]) else s
  }

  function Strip(space: char -> bool, s: string): string {
    RStrip(space, LStrip(space, s))
  }

  function Join(pieces: seq<string>, sep: string): string
    requires pieces != []
  {
    if |pieces| == 1 then pieces[0] else pieces[0] + (sep + Join(pieces[1..], sep))
  }

  lemma {:induction false} ContainsInPrefix(s: string, n: nat, part: string)
    requires n <= |s| && Contains(s[..n], part)
    ensures Contains(s, part)
  {
    if part <= s[..n] {
      assert part <= s;
    } else {
      assert s[..n][1..] == s[1..][..n - 1];
      ContainsInPrefix(s[1..], n - 1, part);
    }
  }

  lemma {:induction false} ContainsInSuffix(s: string, n: nat, part: string)
    requires n <= |s| && Contains(s[n..], part)
    ensures Contains(s, part)
  {
    if n > 0 {
      assert s[n..] == s[1..][n - 1..];
      ContainsInSuffix(s[1..], n - 1, part);
    }
  }

  /** The piece after the last separator does not contain the separator. */
  lemma {:induction false} LastPieceClean(s: string, sep: string)
    requires sep != ""
    ensures !Contains(Split(s, sep)[|Split(s, sep)| - 1], sep)
    decreases |s|
  {
    hide Find, Contains;
    var i := Find(s, sep);
    if i.Some? {
      LastPieceClean(s[i.value + |sep|..], sep);
    }
  }

  /** The piece before the first separator does not contain a separator of at least one character. */
  lemma {:induction false} FirstPieceClean(s: string, sep: string)
    requires sep != ""
    ensures !Contains(Split(s, sep)[0], sep)
    decreases |s|
  {
    var i := Find(s, sep);
    if i.Some? {
      FindIsFirst(s, sep);
    }
  }

  lemma {:induction false} FindIsFirst(s: string, part: string)
    requires Contains(s, part) && part != ""
    ensures !Contains(s[..Find(s, part).value], part)
  {
    if !(part <= s) {
      FindIsFirst(s[1..], part);
      var i := Find(s, part).value;
      assert s[..i][1..] == s[1..][..i - 1];
      assert part <= s[..i] ==> part <= s;
    }
  }

  lemma FirstPieceOf(s: string, sep: string)
    requires sep != ""
    ensures var piece := Split(s, sep)[0]; |piece| <= |s| && piece == s[..|piece|]
  {
  }

  lemma {:induction false} LStripIsSuffix(space: char -> bool, s: string)
    ensures |LStrip(space, s)| <= |s| && LStrip(space, s) == s[|s| - |LStrip(space, s)|..]
  {
    if s != [] && space(s[0]) {
      LStripIsSuffix(space, s[1..]);
    }
  }

  lemma {:induction false} RStripIsPrefix(space: char -> bool, s: string)
    ensures |RStrip(space, s)| <= |s| && RStrip(space, s) == s[..|RStrip(space, s)|]
  {
    if s != [] && space(s[|s| - 1]) {
      RStripIsPrefix(space, s[..|s| - 1]);
    }
  }

  lemma {:induction false} StripKeepsClean(space: char -> bool, s: string, part: string)
    requires !Contains(s, part)
    ensures !Contains(Strip(space, s), part)
  {
    LStripIsSuffix(space, s);
    RStripIsPrefix(space, LStrip(space, s));
    var l := LStrip(space, s);
    if Contains(Strip(space, s), part) {
      ContainsInPrefix(l, |Strip(space, s)|, part);
      ContainsInSuffix(s, |s| - |l|, part);
    }
  }

  /** What str.strip() takes for whitespace. */
  predicate IsSpace(c: char) {
    var i := c as int;
    || 0x09 <= i <= 0x0D || 0x1C <= i <= 0x20 || i == 0x85 || i == 0xA0 || i == 0x1680
    || 0x2000 <= i <= 0x200A || i == 0x2028 || i == 0x2029 || i == 0x202F || i == 0x205F || i == 0x3000
  }

  function Trim(s: string): string {
    Strip(IsSpace, s)
  }

  predicate Trimmed(s: string) {
    s == "" || (!IsSpace(s[0]) && !IsSpace(s[|s| - 1]))
  }

  lemma {:induction false} LStripMeaning(s: string)
    ensures LStrip(IsSpace, s) == "" || !IsSpace(LStrip(IsSpace, s)[0])
    ensures s != "" && !IsSpace(s[0]) ==> LStrip(IsSpace, s) == s
    ensures LStrip(IsSpace, s) != "" ==> s != "" && LStrip(IsSpace, s)[|LStrip(IsSpace, s)| - 1] == s[|s| - 1]
  {
    if s != "" && IsSpace(s[0]) {
      LStripMeaning(s[1..]);
    }
  }

  lemma {:induction false} RStripMeaning(s: string)
    ensures RStrip(IsSpace, s) <= s
    ensures RStrip(IsSpace, s) == "" || !IsSpace(RStrip(IsSpace, s)[|RStrip(IsSpace, s)| - 1])
    ensures s != "" && !IsSpace(s[|s| - 1]) ==> RStrip(IsSpace, s) == s
  {
    if s != "" && IsSpace(s[|s| - 1]) {
      RStripMeaning(s[..|s| - 1]);
    }
  }

  lemma TrimMeaning(s: string)
    ensures Trimmed(Trim(s))
    ensures Trimmed(s) ==> Trim(s) == s
  {
    hide LStrip, RStrip;
    LStripMeaning(s);
    RStripMeaning(LStrip(IsSpace, s));
    EmptyStrip();
  }

  lemma EmptyStrip()
    ensures LStrip(IsSpace, "") == "" && RStrip(IsSpace, "") == ""
  {
  }

  /** Nothing before a visible character is trimmed on the right. */
  lemma {:induction false} RStripAfter(a: string, b: string)
    requires a != "" && !IsSpace(a[|a| - 1])
    ensures RStrip(IsSpace, a + b) == a + RStrip(IsSpace, b)
  {
    if b == "" {
      assert a + b == a;
    } else {
      assert (a + b)[..|a + b| - 1] == a + b[..|b| - 1];
      RStripAfter(a, b[..|b| - 1]);
    }
  }
}
