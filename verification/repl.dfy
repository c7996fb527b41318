/**
  The read-eval-print loop of the shell's `main()`: write the prompt, read a
  line, act on it, and repeat until a line stops the loop. Input is a finite
  list of lines; output is what each iteration writes to standard output.
 */
module Repl {
  import opened Tokenizer
  import opened Shell

  /** True of the outcomes after which the loop does not read another line. */
  predicate Stops(o: Outcome)
  {
    o.Terminate? || o.IndexError?
  }

  /** What an iteration writes to standard output after the prompt. */
  function Emitted(o: Outcome): string
  {
    if o.Echo? || o.NotFound? then o.text + "\n" else ""
  }

  /** An outcome that keeps the loop going prints its text as one line; one
      that stops it prints nothing. */
  lemma EmittedIsPrintedLine(o: Outcome)
    ensures |Emitted(o)| > 0 <==> !Stops(o)
    ensures !Stops(o) ==>
      Emitted(o)[..|Emitted(o)| - 1] == o.text && Emitted(o)[|Emitted(o)| - 1] == '\n'
  {
  }

  /** What echo prints is one line: its only newline is the one `print`
      adds, because the echoed words are joined by plain spaces. The same
      holds for the not-found message of a line that holds no newline. */
  lemma EmittedIsOneLine(line: string)
    ensures Step(line).Echo? || (Step(line).NotFound? && '\n' !in line) ==>
      forall i :: 0 <= i < |Emitted(Step(line))| - 1 ==> Emitted(Step(line))[i] != '\n'
  {
    StepContract(line);
    var o := Step(line);
    var e := Emitted(o);
    if o.Echo? {
      assert e == o.text + "\n";
      forall i | 0 <= i < |e| - 1 ensures e[i] != '\n' {
        assert e[i] == o.text[i];
        assert IsWhitespace('\n');
      }
    } else if o.NotFound? && '\n' !in line {
      assert e == line + NotFoundSuffix + "\n";
      assert '\n' !in NotFoundSuffix;
      forall i | 0 <= i < |e| - 1 ensures e[i] != '\n' {
        if i < |line| {
          assert e[i] == line[i];
        } else {
          assert e[i] == NotFoundSuffix[i - |line|];
        }
      }
    }
  }

  /** How the loop ended: `exit 0`, the IndexError of a blank line, or the
      EOFError that `input()` raises once no line is left. */
  datatype Ending = Exited | IndexErrorRaised | EndOfInput

  /** What the loop wrote to standard output, iteration by iteration, how
      many input lines it read, and how it ended. */
  datatype Trace = Trace(iterations: seq<string>, consumed: nat, ending: Ending)

  /** The trace of the first lines, followed by a trace of the lines after them. */
  function Extend(iterations: seq<string>, consumed: nat, rest: Trace): Trace
  {
    Trace(iterations + rest.iterations, consumed + rest.consumed, rest.ending)
  }

  /** The outcome of every line, in order. */
  function Outcomes(lines: seq<string>): seq<Outcome>
  {
    seq(|lines|, k requires 0 <= k < |lines| => Step(lines[k]))
  }

  /** The loop, given the outcome of each line it may read. */
  function Loop(os: seq<Outcome>): (t: Trace)
    ensures t.consumed <= |os|
    ensures t.ending == EndOfInput ==> t.consumed == |os|
    ensures |t.iterations| == t.consumed + (if t.ending == EndOfInput then 1 else 0)
  {
    if |os| == 0 then Trace([Prompt], 0, EndOfInput)
    else if os[0].Terminate? then Trace([Prompt], 1, Exited)
    else if os[0].IndexError? then Trace([Prompt], 1, IndexErrorRaised)
    else Extend([Prompt + Emitted(os[0])], 1, Loop(os[1..]))
  }

  /** The loop run over a finite list of input lines: it reads at most the
      lines it is given, all of them when it runs out of input, and writes one
      prompt per line read plus one for the read that finds no line. */
  function Run(lines: seq<string>): (t: Trace)
    ensures t.consumed <= |lines|
    ensures t.ending == EndOfInput ==> t.consumed == |lines|
    ensures |t.iterations| == t.consumed + (if t.ending == EndOfInput then 1 else 0)
  {
    Loop(Outcomes(lines))
  }

  /** What Loop writes: the prompt and the outcome's text for every outcome
      it reads, and a last prompt when it runs out of input. */
  lemma {:induction false} LoopWrites(os: seq<Outcome>)
    ensures var t := Loop(os);
      && (forall k :: 0 <= k < t.consumed ==> t.iterations[k] == Prompt + Emitted(os[k]))
      && (t.ending == EndOfInput ==> t.iterations[|os|] == Prompt)
    decreases |os|
  {
    if |os| > 0 && !Stops(os[0]) {
      var t, rest := Loop(os), Loop(os[1..]);
      LoopWrites(os[1..]);
      assert t.iterations == [Prompt + Emitted(os[0])] + rest.iterations;
      assert t.consumed == rest.consumed + 1 && t.ending == rest.ending;
      assert forall k :: 0 < k < |os| ==> os[1..][k - 1] == os[k];
      assert forall k :: 0 < k < |t.iterations| ==> t.iterations[k] == rest.iterations[k - 1];
    }
  }

  /** Where Loop stops: after the first stopping outcome, or at the end of
      the input when no outcome stops it. */
  lemma {:induction false} LoopStopsAtFirst(os: seq<Outcome>)
    ensures var t := Loop(os);
      && (t.ending == EndOfInput ==> forall k :: 0 <= k < |os| ==> !Stops(os[k]))
      && (t.ending != EndOfInput ==>
            && 0 < t.consumed
            && Stops(os[t.consumed - 1])
            && (t.ending == Exited <==> os[t.consumed - 1].Terminate?)
            && forall k :: 0 <= k < t.consumed - 1 ==> !Stops(os[k]))
    decreases |os|
  {
    if |os| > 0 && !Stops(os[0]) {
      var t, rest := Loop(os), Loop(os[1..]);
      LoopStopsAtFirst(os[1..]);
      assert t.consumed == rest.consumed + 1 && t.ending == rest.ending;
      assert forall k :: 0 < k < |os| ==> os[1..][k - 1] == os[k];
    }
  }

  /** Loop writes a prompt and then the outcome's text for every line it
      reads; it reads up to and including the first stopping outcome and no
      further, and runs out of input only when nothing stops it. */
  lemma LoopCharacterised(os: seq<Outcome>)
    ensures var t := Loop(os);
      && (forall k :: 0 <= k < t.consumed ==> t.iterations[k] == Prompt + Emitted(os[k]))
      && (t.ending == EndOfInput ==>
            && t.iterations[|os|] == Prompt
            && forall k :: 0 <= k < |os| ==> !Stops(os[k]))
      && (t.ending != EndOfInput ==>
            && 0 < t.consumed
            && Stops(os[t.consumed - 1])
            && (t.ending == Exited <==> os[t.consumed - 1].Terminate?)
            && forall k :: 0 <= k < t.consumed - 1 ==> !Stops(os[k]))
  {
    LoopWrites(os);
    LoopStopsAtFirst(os);
  }

  /** Every line the loop reads is echoed or reported after its prompt; the
      loop reads up to and including the first line that stops it (`exit 0`
      or a blank line) and no further, and runs out of input only when no
      line stops it. */
  lemma RunCharacterised(lines: seq<string>)
    ensures var t := Run(lines);
      && t.consumed <= |lines|
      && (forall k :: 0 <= k < t.consumed ==>
            t.iterations[k] == Prompt + Emitted(Step(lines[k])))
      && (t.ending == EndOfInput ==>
            && t.consumed == |lines|
            && t.iterations[|lines|] == Prompt
            && forall k :: 0 <= k < |lines| ==> !Stops(Step(lines[k])))
      && (t.ending != EndOfInput ==>
            && 0 < t.consumed
            && Stops(Step(lines[t.consumed - 1]))
            && (t.ending == Exited <==> lines[t.consumed - 1] == ExitLine)
            && forall k :: 0 <= k < t.consumed - 1 ==> !Stops(Step(lines[k])))
  {
    LoopCharacterised(Outcomes(lines));
  }

  /** The loop from the i-th outcome on: what that outcome does to it. */
  lemma LoopAt(os: seq<Outcome>, i: nat)
    requires i < |os|
    ensures Loop(os[i..]) ==
      if os[i].Terminate? then Trace([Prompt], 1, Exited)
      else if os[i].IndexError? then Trace([Prompt], 1, IndexErrorRaised)
      else Extend([Prompt + (os[i].text + "\n")], 1, Loop(os[i + 1..]))
  {
    assert os[i..][0] == os[i];
    assert os[i..][1..] == os[i + 1..];
  }

  /** Extending a trace twice extends it once by both prefixes. */
  lemma ExtendTwice(xs: seq<string>, m: nat, ys: seq<string>, n: nat, rest: Trace)
    ensures Extend(xs, m, Extend(ys, n, rest)) == Extend(xs + ys, m + n, rest)
  {
    assert xs + (ys + rest.iterations) == (xs + ys) + rest.iterations;
  }

  /** The loop as `main()` writes it: one line per iteration until `exit 0`,
      an IndexError, or the end of the input. */
  method Session(lines: seq<string>) returns (t: Trace)
    ensures t == Run(lines)
  {
    ghost var os := Outcomes(lines);
    var iterations: seq<string> := [];
    var consumed: nat := 0;
    assert os[0..] == os;
    while true
      invariant consumed <= |lines|
      invariant Run(lines) == Extend(iterations, consumed, Loop(os[consumed..]))
      decreases |lines| - consumed
    {
      if consumed == |lines| {
        assert os[consumed..] == [];
        return Trace(iterations + [Prompt], consumed, EndOfInput);
      }
      var command := lines[consumed];
      var o := Step(command);
      LoopAt(os, consumed);
      if o.Terminate? {
        return Trace(iterations + [Prompt], consumed + 1, Exited);
      } else if o.IndexError? {
        return Trace(iterations + [Prompt], consumed + 1, IndexErrorRaised);
      }
      var printed := Prompt + (o.text + "\n");
      ExtendTwice(iterations, consumed, [printed], 1, Loop(os[consumed + 1..]));
      iterations := iterations + [printed];
      consumed := consumed + 1;
    }
  }

  /** Once the loop has stopped, later outcomes make no difference. */
  lemma {:induction false} LoopIgnoresLater(os: seq<Outcome>, more: seq<Outcome>)
    requires Loop(os).ending != EndOfInput
    ensures Loop(os + more) == Loop(os)
    decreases |os|
  {
    assert (os + more)[0] == os[0];
    if !Stops(os[0]) {
      assert (os + more)[1..] == os[1..] + more;
      LoopIgnoresLater(os[1..], more);
    }
  }

  lemma OutcomesAppend(a: seq<string>, b: seq<string>)
    ensures Outcomes(a + b) == Outcomes(a) + Outcomes(b)
  {
    var l, r := Outcomes(a + b), Outcomes(a) + Outcomes(b);
    forall k | 0 <= k < |a| + |b| ensures l[k] == r[k] {
      if k < |a| {
        assert (a + b)[k] == a[k];
      } else {
        assert (a + b)[k] == b[k - |a|];
      }
    }
  }

  /** Once the loop has stopped, later lines are never read. */
  lemma RunIgnoresLaterLines(lines: seq<string>, more: seq<string>)
    requires Run(lines).ending != EndOfInput
    ensures Run(lines + more) == Run(lines)
  {
    OutcomesAppend(lines, more);
    LoopIgnoresLater(Outcomes(lines), Outcomes(more));
  }

  /** Outcomes that all keep the loop going are followed by whatever the
      loop does with the outcomes after them. */
  lemma {:induction false} LoopAppend(a: seq<Outcome>, b: seq<Outcome>)
    requires Loop(a).ending == EndOfInput
    ensures Loop(a + b) == Extend(Loop(a).iterations[..|a|], |a|, Loop(b))
    decreases |a|
  {
    if |a| == 0 {
      assert a + b == b;
    } else {
      var x, r := Prompt + Emitted(a[0]), Loop(a[1..]);
      var front := r.iterations[..|a| - 1];
      assert Loop(a + b) == Extend([x], 1, Loop(a[1..] + b)) by {
        assert (a + b)[0] == a[0];
        assert (a + b)[1..] == a[1..] + b;
      }
      LoopAppend(a[1..], b);
      ExtendTwice([x], 1, front, |a| - 1, Loop(b));
      assert Loop(a).iterations[..|a|] == [x] + front by {
        assert Loop(a).iterations == [x] + r.iterations;
      }
    }
  }

  /** Lines that all keep the loop going are followed by whatever the loop
      does with the lines after them. */
  lemma RunAppend(a: seq<string>, b: seq<string>)
    requires Run(a).ending == EndOfInput
    ensures Run(a + b) == Extend(Run(a).iterations[..|a|], |a|, Run(b))
  {
    OutcomesAppend(a, b);
    LoopAppend(Outcomes(a), Outcomes(b));
  }

  /** The loop stops at the first `exit 0` when no blank line comes before it,
      having read exactly the lines up to and including it. */
  lemma RunStopsAtFirstExit(lines: seq<string>, j: nat)
    requires j < |lines| && lines[j] == ExitLine
    requires forall k :: 0 <= k < j ==> !Stops(Step(lines[k]))
    ensures Run(lines).ending == Exited && Run(lines).consumed == j + 1
  {
    RunCharacterised(lines);
    StepContract(lines[j]);
    var c := Run(lines).consumed - 1;
    assert Stops(Step(lines[c]));
  }
}
