/**
  The body of the shell's read-eval-print loop for one line: split it into
  words, and either stop (the line is exactly `exit 0`), echo the words after
  `echo`, or report the whole line as a command that was not found. A blank
  line makes the body index an empty word list.
 */
module Shell {
  import opened Tokenizer

  /** Written before every read. */
  const Prompt: string := "$ "

  /** The only line that ends the loop normally; compared with the raw line. */
  const ExitLine: string := "exit 0"

  /** The first word that selects the echo branch. */
  const EchoName: string := "echo"

  /** Appended to the raw line for every other command. */
  const NotFoundSuffix: string := ": command not found"

  /** What one line of input leads to. */
  datatype Outcome =
    | Terminate           // `break` out of the loop
    | Echo(text: string)  // printed followed by a newline
    | NotFound(text: string)
    | IndexError          // `parts[0]` on an empty list: uncaught, ends the program

  /** The decision the loop body makes for one raw line: the exit check on
      the raw line first, then the first word. */
  function Step(line: string): Outcome
  {
    var parts := Split(line);
    if line == ExitLine then Terminate
    else if |parts| == 0 then IndexError
    else if parts[0] == EchoName then Echo(Join(parts[1..]))
    else NotFound(line + NotFoundSuffix)
  }

  /** Step ends the loop exactly on the raw line `exit 0`, whatever the echo
      branch would have made of it; it fails with IndexError exactly on the
      other lines that hold nothing but whitespace; it echoes exactly when the
      first word is `echo`, printing the remaining words single-spaced; and
      otherwise it reports the entire raw line as not found. */
  lemma StepContract(line: string)
    ensures Step(line).Terminate? <==> line == ExitLine
    ensures Step(line).IndexError? <==> line != ExitLine && AllWhitespace(line)
    ensures Step(line).Echo? <==>
      line != ExitLine && !AllWhitespace(line) && Split(line)[0] == EchoName
    ensures Step(line).Echo? ==>
      SingleSpaced(Step(line).text) && Split(Step(line).text) == Split(line)[1..]
    ensures Step(line).NotFound? ==> Step(line).text == line + NotFoundSuffix
  {
    var parts := Split(line);
    SplitWords(line);
    if line != ExitLine && |parts| > 0 && parts[0] == EchoName {
      assert AllWords(parts[1..]) by {
        forall k | 0 <= k < |parts| - 1 ensures IsWord(parts[1..][k]) {
          assert parts[1..][k] == parts[k + 1];
        }
      }
      SplitJoin(parts[1..]);
      JoinSingleSpaced(parts[1..]);
    }
  }

  /** Two lines with the same words that both reach the echo branch echo the
      same text: how the words were spaced does not matter. */
  lemma EchoIgnoresSpacing(a: string, b: string)
    requires Step(a).Echo? && Split(b) == Split(a)
    ensures Step(b) == Step(a)
  {
    ExitLineIsNotEcho();
  }

  /** The first word of a line that is whitespace, a word, and then nothing
      or whitespace. */
  lemma FirstWord(g: string, w: string, rest: string)
    requires AllWhitespace(g) && IsWord(w)
    requires |rest| == 0 || IsWhitespace(rest[0])
    ensures !AllWhitespace(g + w + rest)
    ensures |Split(g + w + rest)| > 0 && Split(g + w + rest)[0] == w
  {
    assert g + w + rest == g + (w + rest);
    SplitSkipsWhitespace(g, w + rest);
    SplitTakesWord(w, rest);
    assert (g + w + rest)[|g|] == w[0];
  }

  /** However the words after `echo` are spaced, echo prints them joined by
      single spaces. */
  lemma EchoOfLayout(gaps: seq<string>, args: seq<string>)
    requires ValidLayout(gaps, [EchoName] + args)
    ensures Step(Interleave(gaps, [EchoName] + args)) == Echo(Join(args))
  {
    var line := Interleave(gaps, [EchoName] + args);
    SplitOfLayout(gaps, [EchoName] + args);
    assert line != ExitLine by {
      ExitLineIsNotEcho();
    }
    assert ([EchoName] + args)[1..] == args;
  }

  /** The exit line's first word is not `echo`. */
  lemma ExitLineIsNotEcho()
    ensures !AllWhitespace(ExitLine) && Split(ExitLine)[0] != EchoName
  {
    FirstWord("", "exit", " 0");
    assert "" + "exit" + " 0" == ExitLine;
  }

  lemma Regroup(a: string, b: string, c: string, d: string, e: string)
    ensures a + b + c + d + e == a + (b + (c + (d + e)))
  {
  }

  /** The words of `echo`, a gap, a word, a gap and a word. */
  lemma EchoTwoWords(g1: string, a: string, g2: string, b: string)
    requires |g1| > 0 && AllWhitespace(g1) && IsWord(a)
    requires |g2| > 0 && AllWhitespace(g2) && IsWord(b)
    ensures Split(EchoName + g1 + a + g2 + b) == [EchoName, a, b]
  {
    var t3 := g2 + b;
    assert Split(t3) == [b] by {
      SplitTakesWord(b, "");
      assert b + "" == b;
      SplitSkipsWhitespace(g2, b);
    }
    var t2 := a + t3;
    assert Split(t2) == [a, b] by {
      SplitTakesWord(a, t3);
    }
    var t1 := g1 + t2;
    assert Split(t1) == [a, b] by {
      SplitSkipsWhitespace(g1, t2);
    }
    assert Split(EchoName + t1) == [EchoName, a, b] by {
      assert IsWord(EchoName);
      SplitTakesWord(EchoName, t1);
    }
    Regroup(EchoName, g1, a, g2, b);
  }

  /** However wide the whitespace runs after `echo` and between its two
      arguments, echo prints the arguments separated by one space. */
  lemma EchoCollapsesSpaces(g1: string, a: string, g2: string, b: string)
    requires |g1| > 0 && AllWhitespace(g1) && IsWord(a)
    requires |g2| > 0 && AllWhitespace(g2) && IsWord(b)
    ensures Step(EchoName + g1 + a + g2 + b) == Echo(a + " " + b)
  {
    var line := EchoName + g1 + a + g2 + b;
    EchoTwoWords(g1, a, g2, b);
    ExitLineIsNotEcho();
    assert [EchoName, a, b][1..] == [a, b];
    assert Join([a, b]) == a + " " + b by {
      assert [a, b][1..] == [b];
    }
  }

  /** `echo  a   b` prints `a b`. */
  lemma EchoCollapsesSpacesExample(line: string)
    requires line == "echo  a   b"
    ensures Step(line) == Echo("a b")
  {
    assert IsWord("a") && IsWord("b");
    assert AllWhitespace("  ") && AllWhitespace("   ");
    EchoCollapsesSpaces("  ", "a", "   ", "b");
    assert EchoName + "  " + "a" + "   " + "b" == line;
    assert "a" + " " + "b" == "a b";
  }

  /** `echo` with nothing but whitespace around it prints an empty line. */
  lemma EchoAlonePrintsEmptyLine(g1: string, g2: string)
    requires AllWhitespace(g1) && AllWhitespace(g2)
    ensures Step(g1 + EchoName + g2) == Echo("")
  {
    var line := g1 + EchoName + g2;
    assert Split(line) == [EchoName] by {
      assert IsWord(EchoName);
      SplitBlank(g2);
      assert |g2| > 0 ==> IsWhitespace(g2[0]);
      SplitTakesWord(EchoName, g2);
      SplitSkipsWhitespace(g1, EchoName + g2);
      assert line == g1 + (EchoName + g2);
    }
    assert line != ExitLine by {
      ExitLineIsNotEcho();
    }
    assert [EchoName][1..] == [];
  }

  /** A line whose first word is not `echo` is reported in full, whatever
      follows that word: the message quotes the raw line, not the command
      name. */
  lemma NotFoundQuotesWholeLine(g: string, w: string, rest: string)
    requires AllWhitespace(g) && IsWord(w) && w != EchoName
    requires |rest| == 0 || IsWhitespace(rest[0])
    requires g + w + rest != ExitLine
    ensures Step(g + w + rest) == NotFound(g + w + rest + NotFoundSuffix)
  {
    FirstWord(g, w, rest);
    StepContract(g + w + rest);
  }

  /** `echo` alone prints an empty line. */
  lemma EchoAloneExample(line: string)
    requires line == "echo"
    ensures Step(line) == Echo("")
  {
  }

  /** `foo bar` is reported as `foo bar: command not found`. */
  lemma NotFoundExample(line: string)
    requires line == "foo bar"
    ensures Step(line) == NotFound("foo bar: command not found")
  {
    assert IsWord("foo") && IsWhitespace(' ');
    NotFoundQuotesWholeLine("", "foo", " bar");
    assert "" + "foo" + " bar" == line;
    assert line + NotFoundSuffix == "foo bar: command not found";
  }

  /** Only the exact line `exit 0` stops the loop: other spellings of exit
      are reported as unknown commands, with the whole line in the message. */
  lemma ExitIsExact(line: string)
    requires line == "exit" || line == "exit 1" || line == " exit 0" || line == "exit  0"
    ensures Step(line) == NotFound(line + NotFoundSuffix)
  {
    var w := "exit";
    assert IsWord(w) && w != EchoName && IsWhitespace(' ');
    if line == "exit" {
      NotFoundQuotesWholeLine("", w, "");
      assert "" + w + "" == line;
    } else if line == "exit 1" {
      assert "" + w + " 1" == line;
      assert line[5] != ExitLine[5];
      NotFoundQuotesWholeLine("", w, " 1");
    } else if line == " exit 0" {
      NotFoundQuotesWholeLine(" ", w, " 0");
      assert " " + w + " 0" == line;
    } else {
      NotFoundQuotesWholeLine("", w, "  0");
      assert "" + w + "  0" == line;
    }
  }

  /** An empty or all-whitespace line makes the body index an empty word
      list: `exit 0` is not blank, so the exit check never saves it. */
  lemma BlankLineFails(line: string)
    requires AllWhitespace(line)
    ensures Step(line) == IndexError
  {
    assert !IsWhitespace(ExitLine[0]);
    StepContract(line);
  }
}
