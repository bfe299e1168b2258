/**
  The prompt stripper is not idempotent, but doing it twice is as good as doing it any number of times: every result
  is one headline, and at most one block of kept lines whose indentation goes on the second round.
*/
module StripSettling {
  import opened Wrappers
  import opened Strings
  import opened PromptText

  predicate IsHead(h: string) {
    h != "" && Trimmed(h) && BREAK !in h
  }

  /** A block of kept lines that ends in a visible character. */
  predicate IsBlock(rules: set<string>, b: string) {
    b != "" && !IsSpace(b[|b| - 1]) && AllKept(rules, Lines(b))
  }

  function Text(h: string, b: string): string {
    if b == "" then h else h + ([BREAK] + b)
  }

  /** The headline of a prompt, and the lines under it that survive, without the space at their end. */
  function Headline(prompt: string): string {
    Trim(Head(Trim(prompt)))
  }

  function KeptText(rules: set<string>, prompt: string): string {
    var lines := Cleaned(rules, Lines(Body(Trim(prompt))));
    if lines == [] then "" else RStrip(IsSpace, JoinLines(lines))
  }

  lemma AssembledText(h: string, lines: seq<string>)
    requires IsHead(h)
    ensures Assembled(h, lines) == Text(h, if lines == [] then "" else RStrip(IsSpace, JoinLines(lines)))
  {
    hide LStrip, RStrip, JoinLines;
    if lines == [] {
      TrimMeaning(h);
    } else {
      var b := JoinLines(lines);
      LStripMeaning(h + ([BREAK] + b));
      RStripAfter(h, [BREAK] + b);
      RStripBreak(b);
      assert h + "" == h;
    }
  }

  lemma {:induction false} RStripBreak(b: string)
    ensures RStrip(IsSpace, [BREAK] + b) == if RStrip(IsSpace, b) == "" then "" else [BREAK] + RStrip(IsSpace, b)
  {
    if b == "" {
      assert [BREAK] + b == [BREAK];
    } else {
      assert ([BREAK] + b)[..|b|] == [BREAK] + b[..|b| - 1];
      RStripBreak(b[..|b| - 1]);
    }
  }

  lemma HeadlineIsHead(prompt: string)
    requires Trim(prompt) != ""
    ensures IsHead(Headline(prompt))
  {
    hide LStrip, RStrip, Head, After;
    var text := Trim(prompt);
    TrimMeaning(prompt);
    HeadHasNoBreak(text);
    HeadStarts(text);
    var head := Head(text);
    TrimMeaning(head);
    LStripMeaning(head);
    RStripMeaning(head);
    assert RStrip(IsSpace, head) <= head;
    RStripSome(head);
  }

  lemma HeadStarts(s: string)
    requires s != "" && !IsSpace(s[0])
    ensures Head(s) != "" && Head(s)[0] == s[0]
  {
  }

  lemma {:induction false} RStripSome(s: string)
    requires s != "" && !IsSpace(s[0])
    ensures RStrip(IsSpace, s) != ""
  {
    if IsSpace(s[|s| - 1]) {
      RStripSome(s[..|s| - 1]);
    }
  }

  /** What stripping makes of any prompt. */
  lemma StrippedShape(rules: set<string>, prompt: string)
    ensures Trim(prompt) == "" ==> Stripped(rules, prompt) == ""
    ensures Trim(prompt) != "" ==>
              && IsHead(Headline(prompt))
              && Stripped(rules, prompt) == Text(Headline(prompt), KeptText(rules, prompt))
              && (KeptText(rules, prompt) == "" || IsBlock(rules, KeptText(rules, prompt)))
  {
    hide LStrip, RStrip, Head, JoinLines, Lines;
    if Trim(prompt) == "" {
      BlankStripped(rules);
    } else {
      HeadlineIsHead(prompt);
      var body := Body(Trim(prompt));
      var lines := Cleaned(rules, Lines(body));
      AssembledText(Headline(prompt), lines);
      if lines != [] {
        JoinOfLines(body);
        LinesOfJoin(lines);
        RStripKeepsLines(rules, JoinLines(lines));
        RStripMeaning(JoinLines(lines));
      }
    }
  }

  lemma BlankStripped(rules: set<string>)
    ensures Assembled(Trim(Head("")), Cleaned(rules, Lines(Body("")))) == ""
  {
    TrimMeaning("");
    assert Lines("") == [""];
    assert Cleaned(rules, []) == [];
    assert Cleaned(rules, [""]) == [] || Cleaned(rules, [""]) == [""];
    assert "" + ([BREAK] + "") == [BREAK];
    assert LStrip(IsSpace, [BREAK]) == LStrip(IsSpace, "");
  }

  /** Stripping a headline with a block under it only takes away the space before the block. */
  lemma StrippedText(rules: set<string>, h: string, b: string)
    requires IsHead(h) && (b == "" || IsBlock(rules, b))
    ensures Stripped(rules, Text(h, b)) == Text(h, LStrip(IsSpace, b))
    ensures LStrip(IsSpace, b) == "" || IsBlock(rules, LStrip(IsSpace, b))
  {
    hide LStrip, RStrip, Head, After, JoinLines, Lines, Cleaned;
    var text := Text(h, b);
    TrimMeaning(text);
    TrimMeaning(h);
    if b == "" {
      HeadAlone(h);
      CleanedBlank(rules);
      EmptyStrip();
      AssembledText(h, Cleaned(rules, Lines("")));
    } else {
      HeadOf(h, b);
      LStripMeaning(b);
      LStripSome(b);
      var c := LStrip(IsSpace, b);
      RStripMeaning(c);
      assert Trim(b) == c;
      LStripKeepsLines(rules, b);
      CleanedIsAll(rules, Lines(c));
      JoinOfLines(c);
      AssembledText(h, Lines(c));
    }
  }

  lemma {:induction false} HeadAlone(h: string)
    requires BREAK !in h
    ensures Head(h) == h && After(h).None?
  {
    if h != "" {
      HeadAlone(h[1..]);
      assert h == [h[0]] + h[1..];
    }
  }

  lemma CleanedBlank(rules: set<string>)
    ensures Cleaned(rules, Lines("")) == [] || (Cleaned(rules, Lines("")) == [""] && JoinLines([""]) == "")
  {
    assert Lines("") == [""];
    assert Cleaned(rules, []) == [];
  }

  lemma {:induction false} LStripSome(b: string)
    requires b != "" && !IsSpace(b[|b| - 1])
    ensures LStrip(IsSpace, b) != ""
  {
    if IsSpace(b[0]) {
      LStripSome(b[1..]);
    }
  }

  // ---------- the two results ----------

  /** Three rounds are no different from two. */
  lemma StripSettles(rules: set<string>, prompt: string)
    ensures var twice := Stripped(rules, Stripped(rules, prompt));
            Stripped(rules, twice) == twice
  {
    hide LStrip, RStrip, Stripped, Headline, KeptText;
    Twice(rules, prompt);
    if Trim(prompt) != "" {
      var h, b := Headline(prompt), KeptText(rules, prompt);
      StrippedText(rules, h, LStrip(IsSpace, b));
      LStripMeaning(b);
      LStripMeaning(LStrip(IsSpace, b));
      EmptyStrip();
    }
  }

  lemma Twice(rules: set<string>, prompt: string)
    ensures var once := Stripped(rules, prompt);
            if Trim(prompt) == "" then once == "" && Stripped(rules, once) == ""
            else
              && IsHead(Headline(prompt))
              && once == Text(Headline(prompt), KeptText(rules, prompt))
              && (var c := LStrip(IsSpace, KeptText(rules, prompt)); c == "" || IsBlock(rules, c))
              && Stripped(rules, once) == Text(Headline(prompt), LStrip(IsSpace, KeptText(rules, prompt)))
  {
    hide LStrip, RStrip, Stripped, Headline, KeptText;
    StrippedShape(rules, prompt);
    TrimMeaning("");
    StrippedShape(rules, "");
    if Trim(prompt) != "" {
      StrippedText(rules, Headline(prompt), KeptText(rules, prompt));
    }
  }

  /** One round is enough exactly if the kept lines are none, or do not begin with white space. */
  lemma IdempotentExactly(rules: set<string>, prompt: string)
    ensures Stripped(rules, Stripped(rules, prompt)) == Stripped(rules, prompt) <==>
              Trim(prompt) == "" || KeptText(rules, prompt) == "" || !IsSpace(KeptText(rules, prompt)[0])
  {
    hide LStrip, RStrip, Stripped, Headline, KeptText;
    Twice(rules, prompt);
    if Trim(prompt) != "" {
      var h, b := Headline(prompt), KeptText(rules, prompt);
      LStripMeaning(b);
      EmptyStrip();
      if b != "" && IsSpace(b[0]) {
        LStripShorter(b);
        assert |Text(h, LStrip(IsSpace, b))| < |Text(h, b)|;
      }
    }
  }

  lemma {:induction false} LStripShorter(b: string)
    ensures |LStrip(IsSpace, b)| <= |b|
    ensures b != "" && IsSpace(b[0]) ==> |LStrip(IsSpace, b)| < |b|
  {
    if b != "" && IsSpace(b[0]) {
      LStripShorter(b[1..]);
    }
  }

  // ---------- what a second round does not change ----------

  /** A mark without line breaks stays where it was found. */
  lemma MarkStays(rules: set<string>, prompt: string, mark: string)
    requires mark != "" && BREAK !in mark && !IsSpace(mark[0])
    requires Contains(Stripped(rules, prompt), mark)
    ensures Contains(Stripped(rules, Stripped(rules, prompt)), mark)
  {
    hide LStrip, RStrip, Stripped, Headline, KeptText, Contains;
    Twice(rules, prompt);
    if Trim(prompt) != "" {
      var h, b := Headline(prompt), KeptText(rules, prompt);
      if b == "" {
        EmptyStrip();
      } else {
        ContainsEither(h, b, mark);
        var c := LStrip(IsSpace, b);
        if Contains(h, mark) {
          assert Text(h, c)[..|h|] == h;
          ContainsInPrefix(Text(h, c), |h|, mark);
        } else {
          ContainsLStrip(b, mark);
          ContainsSome(c, mark);
          assert Text(h, c)[|h| + 1..] == c;
          ContainsInSuffix(Text(h, c), |h| + 1, mark);
        }
      }
    }
  }

  lemma ContainsSome(s: string, mark: string)
    requires mark != "" && Contains(s, mark)
    ensures s != ""
  {
  }

  lemma InPrefix(p: string, s: string, k: nat)
    requires p <= s && k < |p|
    ensures s[k] in p
  {
    assert p[k] == s[k];
  }

  lemma {:induction false} ContainsEither(h: string, b: string, mark: string)
    requires mark != "" && BREAK !in mark && Contains(h + ([BREAK] + b), mark)
    ensures Contains(h, mark) || Contains(b, mark)
  {
    var s := h + ([BREAK] + b);
    if mark <= s {
      if |mark| > |h| {
        InPrefix(mark, s, |h|);
      } else {
        assert mark <= h;
      }
    } else if h == "" {
      assert s[1..] == b;
    } else {
      assert s[1..] == h[1..] + ([BREAK] + b);
      ContainsEither(h[1..], b, mark);
    }
  }

  lemma {:induction false} ContainsLStrip(b: string, mark: string)
    requires mark != "" && !IsSpace(mark[0]) && Contains(b, mark)
    ensures Contains(LStrip(IsSpace, b), mark)
  {
    if b != "" && IsSpace(b[0]) {
      ContainsLStrip(b[1..], mark);
    }
  }

  /** The beginning of the headline stays too. */
  lemma StartStays(rules: set<string>, prompt: string, start: string)
    requires start != "" && BREAK !in start
    ensures start <= Stripped(rules, Stripped(rules, prompt)) <==> start <= Stripped(rules, prompt)
  {
    hide LStrip, RStrip, Stripped, Headline, KeptText;
    Twice(rules, prompt);
    if Trim(prompt) != "" {
      var h, b := Headline(prompt), KeptText(rules, prompt);
      StartOfText(h, b, start);
      StartOfText(h, LStrip(IsSpace, b), start);
    }
  }

  lemma StartOfText(h: string, b: string, start: string)
    requires BREAK !in start
    ensures start <= Text(h, b) <==> start <= h
  {
    if start <= Text(h, b) && |start| > |h| {
      InPrefix(start, Text(h, b), |h|);
    }
  }

  /** A result of two rounds has no line that the stripper would take out, except perhaps its first. */
  lemma NothingLeftToTake(rules: set<string>, prompt: string, line: string)
    requires After(Stripped(rules, prompt)).Some? && line in Lines(After(Stripped(rules, prompt)).value)
    ensures Kept(rules, line)
  {
    hide LStrip, RStrip, Stripped, Headline, KeptText, Lines, After, Head, Kept;
    StrippedShape(rules, prompt);
    NoAfter();
    if Trim(prompt) != "" {
      var h, b := Headline(prompt), KeptText(rules, prompt);
      if b == "" {
        HeadAlone(h);
      } else {
        HeadOf(h, b);
      }
    }
  }

  lemma NoAfter()
    ensures After("").None?
  {
  }
}
