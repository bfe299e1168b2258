/** Trimming, lines, and the stripper that reduces an old prompt to the part its author wrote. */
module PromptText {
  import opened Wrappers
  import opened Strings

  // ---------- lines ----------

  const BREAK: char := '\n'

  function Lines(s: string): (lines: seq<string>)
    ensures lines != []
  {
    if s == "" then [""]
    else
      var rest := Lines(s[1..]);
      if s[0] == BREAK then [""] + rest else [[s[0]] + rest[0]] + rest[1..]
  }

  function JoinLines(lines: seq<string>): string
    requires lines != []
  {
    if |lines| == 1 then lines[0] else lines[0] + ([BREAK] + JoinLines(lines[1..]))
  }

  lemma {:induction false} JoinOfLines(s: string)
    ensures JoinLines(Lines(s)) == s
    ensures forall l | l in Lines(s) :: BREAK !in l
  {
    if s != "" {
      JoinOfLines(s[1..]);
    }
  }

  lemma {:induction false} LinesOfJoin(lines: seq<string>)
    requires lines != [] && forall l | l in lines :: BREAK !in l
    ensures Lines(JoinLines(lines)) == lines
  {
    if |lines| > 1 {
      LinesOfJoin(lines[1..]);
      LinesAfter(lines[0], JoinLines(lines[1..]));
    } else {
      OneLine(lines[0]);
    }
  }

  lemma {:induction false} OneLine(s: string)
    requires BREAK !in s
    ensures Lines(s) == [s]
  {
    if s != "" {
      OneLine(s[1..]);
      assert s == [s[0]] + s[1..];
    }
  }

  lemma {:induction false} LinesAfter(first: string, rest: string)
    requires BREAK !in first
    ensures Lines(first + ([BREAK] + rest)) == [first] + Lines(rest)
  {
    var s := first + ([BREAK] + rest);
    if first == "" {
      assert s[1..] == rest;
    } else {
      assert s[1..] == first[1..] + ([BREAK] + rest);
      LinesAfter(first[1..], rest);
      assert first == [first[0]] + first[1..];
    }
  }

  /** One more character at the end of the last line, or a new line behind it. */
  function Appended(lines: seq<string>, c: char): seq<string>
    requires lines != []
  {
    var n := |lines| - 1;
    if c == BREAK then lines + [""] else lines[..n] + [lines[n] + [c]]
  }

  /** One more character in front of the first line, or a new line before it. */
  function Prepended(c: char, lines: seq<string>): (longer: seq<string>)
    requires lines != []
    ensures longer != []
  {
    if c == BREAK then [""] + lines else [[c] + lines[0]] + lines[1..]
  }

  lemma LinesParts(s: string)
    ensures Lines(s) == if s == "" then [""] else Prepended(s[0], Lines(s[1..]))
  {
  }

  lemma AppendedLater(front: string, lines: seq<string>, c: char)
    requires lines != []
    ensures Appended([front] + lines, c) == [front] + Appended(lines, c)
  {
    var n := |lines| - 1;
    assert ([front] + lines)[..n + 1] == [front] + lines[..n];
  }

  lemma PrependedCommutes(b: char, lines: seq<string>, c: char)
    requires lines != []
    ensures Appended(Prepended(b, lines), c) == Prepended(b, Appended(lines, c))
  {
    hide Appended;
    if b == BREAK {
      AppendedLater("", lines, c);
    } else if |lines| == 1 {
      OneLineCommutes(b, lines[0], c);
      assert lines == [lines[0]] && lines[1..] == [];
    } else {
      assert lines == [lines[0]] + lines[1..];
      AppendedLater(lines[0], lines[1..], c);
      AppendedLater([b] + lines[0], lines[1..], c);
    }
  }

  lemma OneLineCommutes(b: char, line: string, c: char)
    requires b != BREAK
    ensures Appended([[b] + line] + [], c) == Prepended(b, Appended([line], c))
  {
    assert [b] + line + [c] == [b] + (line + [c]);
  }

  lemma {:induction false} LinesOfAppend(s: string, c: char)
    ensures Lines(s + [c]) == Appended(Lines(s), c)
  {
    hide Lines, Prepended, Appended;
    LinesParts(s);
    LinesParts(s + [c]);
    if s == "" {
      assert s + [c] == [c] && [c][1..] == "";
      LinesParts("");
      OneChar(c);
    } else {
      assert (s + [c])[1..] == s[1..] + [c];
      LinesOfAppend(s[1..], c);
      PrependedCommutes(s[0], Lines(s[1..]), c);
    }
  }

  lemma OneChar(c: char)
    ensures Prepended(c, [""]) == Appended([""], c)
  {
    assert [c] + "" == "" + [c];
  }

  // ---------- the stripper ----------

  /** A line that survives the stripping: neither the start of the examples nor a known rule. */
  predicate Kept(rules: set<string>, line: string) {
    !("EXAMPLES:" <= Trim(line)) && Trim(line) !in rules
  }

  /** The lines before the examples that are not known rules. */
  function Cleaned(rules: set<string>, lines: seq<string>): (kept: seq<string>)
    ensures forall l | l in kept :: l in lines && Kept(rules, l)
  {
    if lines == [] || "EXAMPLES:" <= Trim(lines[0]) then []
    else (if Trim(lines[0]) in rules then [] else [lines[0]]) + Cleaned(rules, lines[1..])
  }

  /** Up to the first line break, and after it. */
  function Head(s: string): string {
    if s == "" || s[0] == BREAK then "" else [s[0]] + Head(s[1..])
  }

  function After(s: string): Option<string> {
    if s == "" then None else if s[0] == BREAK then Some(s[1..]) else After(s[1..])
  }

  function Body(text: string): string {
    match After(text)
    case None => ""
    case Some(rest) => Trim(rest)
  }

  function Stripped(rules: set<string>, prompt: string): string {
    var text := Trim(prompt);
    Assembled(Trim(Head(text)), Cleaned(rules, Lines(Body(text))))
  }

  function Assembled(head: string, lines: seq<string>): string {
    Trim(if lines == [] then head else head + ([BREAK] + JoinLines(lines)))
  }

  method CleanLines(rules: set<string>, lines: seq<string>) returns (cleaned: seq<string>)
    ensures cleaned == Cleaned(rules, lines)
  {
    hide Trim, Cleaned;
    cleaned := [];
    var skipExamples := false;
    assert lines[0..] == lines;
    for i := 0 to |lines|
      invariant cleaned + (if skipExamples then [] else Cleaned(rules, lines[i..])) == Cleaned(rules, lines)
    {
      CleanedStep(rules, lines[i..]);
      assert lines[i..][1..] == lines[i + 1..];
      var stripped := Trim(lines[i]);
      if "EXAMPLES:" <= stripped {
        skipExamples := true;
        continue;
      }
      if skipExamples {
        continue;
      }
      if stripped in rules {
        continue;
      }
      cleaned := cleaned + [lines[i]];
    }
    CleanedNone(rules);
  }

  lemma CleanedNone(rules: set<string>)
    ensures Cleaned(rules, []) == []
  {
  }

  lemma CleanedStep(rules: set<string>, lines: seq<string>)
    requires lines != []
    ensures Cleaned(rules, lines) ==
              if "EXAMPLES:" <= Trim(lines[0]) then []
              else if Trim(lines[0]) in rules then Cleaned(rules, lines[1..])
              else [lines[0]] + Cleaned(rules, lines[1..])
  {
  }

  method StripStructuralRules(rules: set<string>, prompt: string) returns (r: string)
    ensures r == Stripped(rules, prompt)
  {
    hide Trim, Lines, Head, After, Cleaned, JoinLines;
    var text := Trim(prompt);
    var head, body := text, "";
    if After(text).Some? {
      head, body := Head(text), Trim(After(text).value);
    } else {
      NoBreak(text);
    }
    var cleaned := CleanLines(rules, Lines(body));
    r := Trim(head);
    if cleaned != [] {
      r := r + ([BREAK] + JoinLines(cleaned));
    }
    r := Trim(r);
  }

  lemma {:induction false} NoBreak(s: string)
    requires After(s).None?
    ensures Head(s) == s && BREAK !in s
  {
    if s != "" {
      NoBreak(s[1..]);
    }
  }

  lemma {:induction false} HeadOf(head: string, rest: string)
    requires BREAK !in head
    ensures Head(head + ([BREAK] + rest)) == head && After(head + ([BREAK] + rest)) == Some(rest)
  {
    var s := head + ([BREAK] + rest);
    if head == "" {
      assert s[1..] == rest;
    } else {
      assert s[1..] == head[1..] + ([BREAK] + rest);
      HeadOf(head[1..], rest);
    }
  }

  lemma PutBack(s: string, head: string, after: Option<string>)
    requires s != "" && head <= s[1..]
    ensures [s[0]] + head <= s
    ensures after.Some? && s[1..] == head + ([BREAK] + after.value) ==> s == [s[0]] + head + ([BREAK] + after.value)
  {
    assert s == [s[0]] + s[1..];
  }

  lemma {:induction false} HeadHasNoBreak(s: string)
    ensures BREAK !in Head(s) && Head(s) <= s
    ensures After(s).Some? ==> s == Head(s) + ([BREAK] + After(s).value)
  {
    if s != "" && s[0] != BREAK {
      HeadHasNoBreak(s[1..]);
      PutBack(s, Head(s[1..]), After(s[1..]));
    }
  }

  // ---------- what trimming does to lines ----------

  predicate AllKept(rules: set<string>, lines: seq<string>) {
    forall l | l in lines :: Kept(rules, l)
  }

  lemma {:induction false} LStripKeepsLines(rules: set<string>, s: string)
    requires AllKept(rules, Lines(s))
    ensures AllKept(rules, Lines(LStrip(IsSpace, s)))
  {
    if s != "" && IsSpace(s[0]) {
      var rest := Lines(s[1..]);
      assert rest == [rest[0]] + rest[1..];
      if s[0] != BREAK {
        assert Lines(s)[0] == [s[0]] + rest[0];
        assert Kept(rules, Lines(s)[0]);
        assert Lines(s)[0][1..] == rest[0];
        assert Kept(rules, rest[0]);
      }
      LStripKeepsLines(rules, s[1..]);
    }
  }

  lemma {:induction false} RStripKeepsLines(rules: set<string>, s: string)
    requires AllKept(rules, Lines(s))
    ensures AllKept(rules, Lines(RStrip(IsSpace, s)))
  {
    if s != "" && IsSpace(s[|s| - 1]) {
      var less, c := s[..|s| - 1], s[|s| - 1];
      assert s == less + [c];
      LinesOfAppend(less, c);
      var lines := Lines(less);
      var n := |lines| - 1;
      assert lines == lines[..n] + [lines[n]];
      if c != BREAK {
        assert Kept(rules, Lines(s)[n]);
        TrimDropsLast(lines[n], c);
      }
      RStripKeepsLines(rules, less);
    }
  }

  lemma TrimDropsLast(s: string, c: char)
    requires IsSpace(c)
    ensures Trim(s + [c]) == Trim(s)
  {
    LStripOfAppend(s, c);
  }

  lemma {:induction false} LStripOfAppend(s: string, c: char)
    requires IsSpace(c)
    ensures LStrip(IsSpace, s + [c]) == (if LStrip(IsSpace, s) == "" then "" else LStrip(IsSpace, s) + [c])
  {
    if s == "" {
      assert s + [c] == [c];
    } else {
      assert (s + [c])[1..] == s[1..] + [c];
      if IsSpace(s[0]) {
        LStripOfAppend(s[1..], c);
      }
    }
  }

  lemma {:induction false} CleanedIsAll(rules: set<string>, lines: seq<string>)
    requires AllKept(rules, lines)
    ensures Cleaned(rules, lines) == lines
  {
    if lines != [] {
      assert Kept(rules, lines[0]);
      CleanedIsAll(rules, lines[1..]);
    }
  }
}
