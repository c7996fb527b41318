# A verified model of a minimal Python shell loop

The program is a toy shell: `main()` in `app/main.py` loops forever. On each pass it:

- writes the prompt `$ `;
- reads one line with `input()`;
- splits the line with `str.split()`;
- acts on it:
  - the raw line `exit 0` breaks the loop;
  - a first word `echo` prints the remaining words joined by single spaces;
  - anything else prints `<line>: command not found`.

A blank line makes `parts[0]` raise `IndexError`, and running out of input makes `input()` raise `EOFError`. Neither is caught, so both end the program.

The model has three modules, one per layer of that loop:

- `Tokenizer` (`tokenizer.dfy`) covers `str.split()` with no separator and `" ".join(...)`.
  - `IsWhitespace` is Python 3's `str.isspace` table, written out.
  - `Split` goes one character at a time. `Interleave`, `ValidLayout` and `Gaps` describe a line as whitespace gaps around words.
  - The lemmas prove four things. Every layout of a line has exactly `Split`'s words as its words. `Gaps` together with `Split` is one such layout. Splitting loses whitespace and nothing else. `Split` and `Join` are inverse on single-spaced text.
- `Shell` (`shell.dfy`) covers the loop body for one line, as `Step(line): Outcome`. The outcomes are `Terminate`, `Echo(text)`, `NotFound(text)` and `IndexError`. It also has the constants `Prompt`, `ExitLine`, `EchoName` and `NotFoundSuffix`.
- `Repl` (`repl.dfy`) covers the loop over a finite list of input lines.
  - `Run(lines)` is a `Trace`: the text each iteration writes to standard output, the number of lines read, and how the loop ended (`Exited`, `IndexErrorRaised` or `EndOfInput`).
  - `Loop` is the same loop over a list of outcomes.
  - `Session` is the loop written as a `while` loop, proved equal to `Run`.

The model follows `app/main.py` where it differs from what a usual shell does:

- A blank or all-whitespace line is not re-prompted: it raises `IndexError` (`Shell.BlankLineFails`).
- `exit` takes no argument. Only the raw line `exit 0` ends the loop. `exit`, `exit 1`, ` exit 0` and `exit  0` are unknown commands (`Shell.ExitIsExact`).
- The not-found message quotes the whole raw line, leading whitespace and arguments included, not only the command name (`Shell.NotFoundQuotesWholeLine`).
- There is no quoting, no `type`, `pwd` or `cd`, and no search path or external process.

## Model

| member | source | states |
|---|---|---|
| Tokenizer.Split | app/main.py:12 | `command.split()`. Its own contract: a line that starts with a non-whitespace character has at least one word. What it returns is pinned down by SplitWords, SplitLosesOnlyWhitespace, SplitOfLayout and GapsLayout |
| Tokenizer.Join | app/main.py:16 | `" ".join(parts[1:])`; contract given by JoinLength, JoinSingleSpaced, SplitJoin and JoinSplit |
| Tokenizer.JoinLength | app/main.py:16 | joining no words gives the empty string; otherwise the result is as long as the words together plus one separator for each gap between two words, and deleting its whitespace leaves exactly the words' characters, in order |
| Tokenizer.SplitWords | app/main.py:12 | every element of `line.split()` is a non-empty word without whitespace, and the list is empty exactly when the line is empty or all whitespace |
| Tokenizer.SplitLosesOnlyWhitespace | app/main.py:12 | the words, concatenated, are the line with every whitespace character deleted: splitting drops whitespace and never any other character |
| Tokenizer.SplitSkipsWhitespace | app/main.py:12 | whitespace in front of a line does not change its words |
| Tokenizer.SplitTakesWord | app/main.py:12 | a word followed by the end of the line or by whitespace is the line's first word, and the rest of the words come from what follows it |
| Tokenizer.SplitOfLayout | app/main.py:12 | a line made of whitespace gaps around words, with a non-empty gap between any two words, splits into exactly those words: runs of whitespace of any length and kind act as one separator |
| Tokenizer.GapsLayout | app/main.py:12 | every line is such a layout of its own words, so the words `Split` returns are the only words the line can be read as |
| Tokenizer.JoinSingleSpaced | app/main.py:16 | joining words with `" "` gives text whose only whitespace is single spaces between words, and that text is empty exactly when there are no words |
| Tokenizer.SplitJoin | app/main.py:12-16 | splitting the joined words gives the same words back |
| Tokenizer.JoinSplit | app/main.py:12-16 | joining the words of single-spaced text gives the text back |
| Shell.Step | app/main.py:12-18 | what the loop body does with one raw line; contract given by StepContract |
| Shell.StepContract | app/main.py:12-18 | a line ends the loop exactly when it equals `exit 0` (the check on the raw line comes before the echo branch); it raises IndexError exactly when it is some other blank line; it echoes exactly when its first word is `echo`, printing the remaining words as single-spaced text that splits back into them; otherwise it prints the raw line followed by `: command not found` |
| Shell.EchoIgnoresSpacing | app/main.py:12-16 | an echo line's output depends only on its words: any line with the same words prints the same text, however it is spaced |
| Shell.EchoOfLayout | app/main.py:12-16 | `echo` and its arguments laid out with any whitespace gaps print the arguments joined by single spaces |
| Shell.EchoCollapsesSpaces | app/main.py:12-16 | `echo`, a whitespace run, a word, a whitespace run and a word prints the two words separated by one space |
| Shell.EchoCollapsesSpacesExample | app/main.py:15-16 | the line `echo  a   b` prints `a b` |
| Shell.EchoAlonePrintsEmptyLine | app/main.py:15-16 | `echo` with only whitespace around it prints an empty line |
| Shell.EchoAloneExample | app/main.py:15-16 | the line `echo` prints an empty line |
| Shell.NotFoundQuotesWholeLine | app/main.py:17-18 | a line whose first word is not `echo` (and that is not `exit 0`) is reported with the whole raw line, leading whitespace and arguments included |
| Shell.NotFoundExample | app/main.py:17-18 | the line `foo bar` prints `foo bar: command not found` |
| Shell.ExitIsExact | app/main.py:13-18 | `exit`, `exit 1`, ` exit 0` and `exit  0` do not end the loop: each is reported as not found |
| Shell.BlankLineFails | app/main.py:12-15 | an empty or all-whitespace line raises IndexError: the exit check does not match it and `parts[0]` indexes an empty list |
| Repl.Emitted | app/main.py:13-18 | what an iteration prints after the prompt; contract given by EmittedIsPrintedLine |
| Repl.EmittedIsPrintedLine | app/main.py:13-18 | an echo or not-found outcome prints its text followed by one newline, as `print` does; `exit 0` and the IndexError print nothing |
| Repl.EmittedIsOneLine | app/main.py:15-18 | echo output is a single line: its only newline is the one `print` adds; the same holds for the not-found message of a line without a newline |
| Repl.Run | app/main.py:9-18 | the loop over a finite list of lines. Its own contract: it reads at most the lines it is given, all of them when it runs out of input, and writes one prompt per line read plus one for the read that finds no line. The full contract is given by RunCharacterised |
| Repl.Loop | app/main.py:9-18 | the loop reads at most the lines it is given, reads all of them when it runs out of input, and writes one prompt per line read plus one more when input runs out |
| Repl.LoopCharacterised | app/main.py:9-18 | for every outcome the loop reads, it writes the prompt and that outcome's text; it reads up to and including the first stopping outcome and no further; the ending names that outcome; it runs out of input only when no outcome stops it |
| Repl.RunCharacterised | app/main.py:9-18 | for every line read, the output is the prompt followed by what `Step` prints for that line; the last line read is the first one that stops the loop; the loop ended by exit exactly when that line is `exit 0`; it runs out of input, after one extra prompt, only when no line stops it |
| Repl.Session | app/main.py:9-18 | the `while` loop that writes, reads and dispatches one line per iteration produces exactly the trace `Run` defines |
| Repl.LoopIgnoresLater | app/main.py:9-14 | once the loop has stopped, appending outcomes changes nothing |
| Repl.RunIgnoresLaterLines | app/main.py:9-14 | no line after the one that stopped the loop is ever read |
| Repl.LoopAppend | app/main.py:9-18 | if no outcome in a prefix stops the loop, the trace is that prefix's iterations followed by the trace of the rest |
| Repl.RunAppend | app/main.py:9-18 | if no line in a prefix stops the loop, the trace is that prefix's iterations followed by the trace of the remaining lines |
| Repl.RunStopsAtFirstExit | app/main.py:9-14 | if line j is `exit 0` and no earlier line stops the loop, the loop ends by exit after reading exactly j + 1 lines |

## Left out

- Standard input and output: `input()` and `sys.stdout.write`/`print` are the trace's boundary. Input is a finite list of lines, already stripped of their newline. Output is recorded per iteration as the prompt followed by the printed text and its newline. Buffering and flushing are not modelled.
- The two uncaught exceptions: they become the `IndexErrorRaised` and `EndOfInput` endings. The traceback written to standard error and the process exit status they cause are not modelled. A normal exit returns from `main()`.
- Interrupts (`KeyboardInterrupt`) and I/O errors: they are outside the loop's logic.
- `IsWhitespace`: it is the `str.isspace` table of Python 3 as a fixed list of code points. Dafny's `char` is a Unicode scalar value, so lone surrogates, which Python strings can hold, cannot occur. No surrogate is whitespace in Python either.
- The `if __name__ == "__main__"` guard: it only calls `main()`.
