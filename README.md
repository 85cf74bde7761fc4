# rush shell and ring buffer — a Dafny model

This project models two C programs of one repository and proves properties of them.

**The `rush` shell (CustomShellProject.c).** The shell reads lines from standard input. It
strips the newline and trims whitespace. It splits the line on `&` into at most 64 trimmed,
non-blank pieces. One piece is parsed by `parse_command`, with strict `>` redirection and at
most 63 arguments. It then runs as a built-in (`exit`, `cd`, `path`) or as an external
command. An external command is resolved against the search path, and each candidate is
formatted into a 255-byte buffer. Several pieces form a parallel batch. Each member is
tokenized by the looser tokenizer of `execute_parallel_commands`, and only external commands
run. Any command-line argument is a startup error.

The operating system is a parameter `Os`, and the model does not perform it:

- which candidate files are executable (`access`);
- which directories `chdir` accepts;
- which process creations (`fork`) succeed, at each site.

What the shell does to the world is a sequence of effects: the one error message, a launch
(program, argument vector, output file), a change of directory, and leaving the loop.

- `strtok`/`strtok_r` become the function `Tokens`: the maximal runs of non-delimiters.
  `NextToken` is the cursor step.
- The `char *args[MAX_ARGS]` arrays are Dafny arrays of 64 optional strings, with `None` as
  the NULL sentinel.

Each imperative routine is a method proved equal to a reference function. Those routines are
`trim`, `is_empty_or_whitespace`, `parse_command`, the member tokenizer, the `&` split,
`execute_command`, `execute_parallel_commands`, one pass of the read loop, and `main`. The
lemmas state the source's promises about the reference functions.

**The producer/consumer program (Multithreaded.c).** The shared globals `buffer[15]`,
`buffer_counter`, `buffer_in`, `buffer_out` and `completed_production` form the class
`SharedBuffer`. The producer's and the consumer's critical sections are its methods. Each
thread's wait condition is the method's precondition. The class invariant is
`buffer_in == (buffer_out + buffer_counter) % 15`, with all indices in range. `Contents()` is
the queue the slots hold. The two threads become a schedule, a parameter, that picks which
thread runs next. `RunRound` runs one round for any schedule. `ReadLine` models the
`fgets`/`strcspn`/flush input handling of `main` with one method per library call, `Iteration` is one pass of the main loop, and `RunProgram` is the whole main loop.

Files:

- `wrappers.dfy`: `Option` and a lemma on concatenation.
- `shell_text.dfy`: whitespace and trimming.
- `shell_tokens.dfy`: the `strtok` model.
- `shell_parse.dfy`: the two command tokenizers and the `&` split.
- `shell.dfy`: the search path, command execution, one line, the session.
- `shell_properties.dfy`: properties of lines and sessions.
- `producer_consumer.dfy`: Multithreaded.c.

## Model

| member | source | states |
|---|---|---|
| ShellText.Trimmed | CustomShellProject.c:172-184 | defines trimming: leading whitespace removed, then trailing whitespace |
| ShellText.TrimmedIsSlice | CustomShellProject.c:172-184 | trimming returns a slice of the input that has only whitespace before and after it, and starts and ends with a non-space character when non-empty |
| ShellText.TrimmedUnique | CustomShellProject.c:172-184 | any slice with only whitespace outside it and non-space characters at both of its ends is the trimmed text, so the result of trimming is determined uniquely |
| ShellText.TrimmedIdempotent | CustomShellProject.c:235 | trimming an already trimmed piece changes nothing |
| ShellText.TrimmedEmptyIff | CustomShellProject.c:172-194 | the trimmed text is empty exactly when the input is all whitespace (both directions) |
| ShellText.Trim | CustomShellProject.c:172-184 | the two pointer loops of `trim` stop at bounds whose slice is the trimmed text |
| ShellText.IsEmptyOrWhitespace | CustomShellProject.c:187-194 | the result is true exactly when every character is whitespace (C-locale `isspace`) |
| Tokenizer.Tokens | CustomShellProject.c:50-69 | defines the tokens `strtok` yields: the maximal runs of non-delimiter characters, left to right |
| Tokenizer.TokensAreWords | CustomShellProject.c:50-69 | every token is non-empty and contains no delimiter |
| Tokenizer.TokensKeepText | CustomShellProject.c:50-69 | the tokens, concatenated in order, are exactly the non-delimiter characters of the input: nothing is lost, reordered or invented |
| Tokenizer.TokensSplit | CustomShellProject.c:232-239 | a delimiter character splits the tokens: the tokens of `a d b` are those of `a` followed by those of `b` |
| Tokenizer.TokensOfWord | CustomShellProject.c:232-239 | a non-empty text without delimiters is a single token |
| Tokenizer.TokensOfJoin | CustomShellProject.c:50-69 | round trip: joining words with a delimiter and tokenizing gives back the same words |
| Tokenizer.RepeatedDelimiter | CustomShellProject.c:232-239 | two consecutive delimiters tokenize like one |
| Tokenizer.NextToken | CustomShellProject.c:50-69 | one `strtok` call: it finds the next token and the resume position, so that the remaining tokens are that token followed by the tokens after it, or reports that no token is left |
| Tokenizer.FirstToken | CustomShellProject.c:50 | the first `strtok` call on a string stands at its first token, or reports that it has none |
| Tokenizer.FollowingToken | CustomShellProject.c:59-69 | each `strtok(NULL, ...)` call after the t-th token stands at token t + 1, or reports that the tokens are exhausted |
| CommandParser.FirstRedirect | CustomShellProject.c:54 | the index of the first `>` token, with no `>` before it |
| CommandParser.StrictParse | CustomShellProject.c:46-73 | the accepted arguments are a prefix of the tokens and fewer than MAX_ARGS |
| CommandParser.StrictParsePlain | CustomShellProject.c:50-72 | fewer than 64 tokens without `>` are accepted as exactly the arguments, with no output file |
| CommandParser.StrictParseRejectsAt | CustomShellProject.c:54-65 | a first `>` within the scanned tokens that comes first, comes last, or is followed by more than one token rejects the command |
| CommandParser.StrictParseRedirect | CustomShellProject.c:54-72 | a first `>` after at least one argument and followed by exactly one token is accepted: the arguments before it and that token as output file |
| CommandParser.StrictParseFull | CustomShellProject.c:53-72 | once 63 tokens without `>` are scanned, the command is those 63 arguments and the rest is ignored |
| CommandParser.StrictParseAccepts | CustomShellProject.c:53-72 | accepted: no argument is `>`. Without an output file, the arguments are all the tokens, or the first 63 of them. With one, the `>` follows at least one argument and its file name is the last token |
| CommandParser.StrictParseRejects | CustomShellProject.c:54-65 | rejected exactly when the first `>` within the first 63 tokens comes first, has nothing after it, or has tokens after its file name (both directions) |
| CommandParser.ParseCommand | CustomShellProject.c:46-73 | `parse_command` returns -1 exactly on rejection. Otherwise it returns the argument count, fills `args` with the arguments followed by NULL, and returns the output file |
| CommandParser.ScanArguments | CustomShellProject.c:47-70 | the scanning loop of `parse_command` returns -1 exactly on rejection, and otherwise the argument count, the arguments in `args` and the output file |
| CommandParser.LooseFrom | CustomShellProject.c:84-97 | the member tokenizer keeps the arguments already collected as a prefix of its result, in order, adds at most one argument per remaining token, and stays below MAX_ARGS |
| CommandParser.LooseParse | CustomShellProject.c:82-98 | the batch tokenizer from an empty argument list: an accepted member has fewer than MAX_ARGS arguments and no more arguments than tokens |
| CommandParser.LooseExtendsStrict | CustomShellProject.c:46-97 | whatever `parse_command` accepts, the batch tokenizer accepts with the same arguments and output file |
| CommandParser.LooseRedirectAnywhere | CustomShellProject.c:85-95 | in a batch member the `>` may come first, and the tokens after the file name stay arguments |
| CommandParser.LooseSecondRedirect | CustomShellProject.c:87-91 | a second `>` in a batch member rejects it |
| CommandParser.LooseDanglingRedirect | CustomShellProject.c:86-91 | a `>` with nothing after it rejects a batch member |
| CommandParser.ParseMember | CustomShellProject.c:78-98 | the batch tokenizer loop returns -1 exactly on rejection. Otherwise it returns the argument count, fills `args` followed by NULL, and returns the output file |
| CommandParser.Pieces | CustomShellProject.c:229-240 | at most MAX_ARGS pieces are kept |
| CommandParser.NonEmptyTrimmedWellFormed | CustomShellProject.c:234-238 | the kept pieces are non-empty, trimmed and `&`-free |
| CommandParser.PiecesWellFormed | CustomShellProject.c:232-240 | every piece of a line is non-empty, already trimmed and contains no `&` |
| CommandParser.PiecesOfBlankLine | CustomShellProject.c:232-244 | a line of only `&` and whitespace yields no command |
| CommandParser.RepeatedSeparator | CustomShellProject.c:232-239 | `a && b` splits like `a & b` |
| CommandParser.PiecesOfTwo | CustomShellProject.c:232-240 | two non-blank, `&`-free parts around one `&` give exactly their two trimmed texts, in order |
| CommandParser.SplitParallel | CustomShellProject.c:229-240 | the `strtok_r` loop collects exactly the pieces of the line |
| CommandParser.TrimPiece | CustomShellProject.c:235-236 | a piece is trimmed, and kept exactly when the trimmed text is non-empty |
| Shell.Candidate | CustomShellProject.c:131-132 | the candidate is `dir/command` cut to at most 254 characters; it is a prefix of `dir/command` and equals it when that fits |
| Shell.Resolve | CustomShellProject.c:130-168 | the search over the path: a resolved program is executable and is the candidate of some directory on the path |
| Shell.ExecEffect | CustomShellProject.c:130-168 | the outcome of `execute_command`: an error or a launch, a launch exactly when the command resolves and `fork` succeeds, and a launch runs an executable program with the given arguments and output file |
| Shell.ResolveFirstMatch | CustomShellProject.c:130-134 | the first directory whose candidate is executable wins, and later directories are not considered |
| Shell.ResolveNoMatch | CustomShellProject.c:130-168 | resolution fails exactly when no directory on the path gives an executable candidate, in particular when the path is empty (both directions) |
| Shell.BatchFrom | CustomShellProject.c:78-117 | defines the effects of batch members from a given one on: a member without arguments adds nothing, an abort adds one error and ends the batch, a launched member adds the outcome of `execute_command` |
| Shell.Batch | CustomShellProject.c:78-117 | defines the effects of a whole batch, from its first member |
| Shell.RunSingle | CustomShellProject.c:265-286 | a single command has at most one effect, changes the path only when it is `path`, and leaves the loop exactly when it is `exit` with no arguments |
| Shell.StepSpec | CustomShellProject.c:219-286 | one pass of the read loop over a line; a line that changes the path has no other effect |
| Shell.SessionFrom | CustomShellProject.c:209-287 | defines the effects of the read loop from a given line on: each line runs with the path the previous lines left, until `exit` or end of input |
| Shell.Session | CustomShellProject.c:196-297 | defines the whole program: any command-line argument is an error with status 1, otherwise the session from the initial path with status 0 |
| Shell.MemberOf | CustomShellProject.c:82-116 | a batch member that is forked has at least one argument |
| Shell.ShellState.constructor | CustomShellProject.c:30-34 | the search path starts as `["/bin"]` |
| Shell.ShellState.UpdatePath | CustomShellProject.c:36-43 | the path becomes exactly the new path |
| Shell.ShellState.ExecuteCommand | CustomShellProject.c:129-169 | the loop over the path returns the effect of resolving the command and launching it. It returns 0 exactly when a child was launched, otherwise -1 with one error |
| Shell.ShellState.ExecuteParallelCommands | CustomShellProject.c:75-126 | the launch loop produces the batch effects, in member order, and returns -1 exactly when some member is malformed or its `fork` fails |
| Shell.ShellState.LaunchMember | CustomShellProject.c:79-116 | one member of a batch: nothing for a member without arguments, one error and the end of the batch for a malformed member or a failed `fork`, and otherwise the effect of `execute_command` on its arguments and output file |
| Shell.ShellState.Step | CustomShellProject.c:219-286 | one pass of the read loop changes the path and produces effects exactly as one step of the session |
| Shell.RunShell | CustomShellProject.c:196-287 | `main` produces the effects and exit status of the session: status 1 and one error for any argument, otherwise the effects of the lines up to `exit` or end of input, and status 0 |
| ShellProperties.BatchOnlyExternal | CustomShellProject.c:100-105 | batch members never run built-ins: every effect of a batch is an error or a launch |
| ShellProperties.BatchSplit | CustomShellProject.c:78-117 | members run left to right: while no member aborts, the effects of the first members come first, in order |
| ShellProperties.BatchAbortEnds | CustomShellProject.c:89-116 | the first malformed member, or the first failed `fork`, adds one error and ends the launch loop; no later member is tokenized or launched |
| ShellProperties.BatchSkipsEmptyMember | CustomShellProject.c:100 | a member without arguments is skipped without affecting the others |
| ShellProperties.BlankLineDoesNothing | CustomShellProject.c:219-226 | a blank line has no effect and leaves the path unchanged |
| ShellProperties.BuiltinsNeedSinglePiece | CustomShellProject.c:246-249 | a line with several pieces never changes the path, exits or changes directory |
| ShellProperties.SinglePieceAtMostOneEffect | CustomShellProject.c:251-286 | a single command has at most one effect |
| ShellProperties.PathChangesOnlyByBuiltin | CustomShellProject.c:278-283 | the path changes only through a single `path` command, and then becomes exactly its arguments, in order, duplicates kept |
| ShellProperties.ExitOnlyAlone | CustomShellProject.c:266-271 | the loop is left only on a single command that is exactly `exit`, and leaving is the line's only effect |
| ShellProperties.CommandLine | CustomShellProject.c:219-254 | a line of fewer than 64 plain words is dispatched as the single command with exactly those arguments and no output file |
| ShellProperties.SinglePieceLine | CustomShellProject.c:219-240 | a line that starts and ends with a non-space character and has no `&` is one piece: the whole line |
| ShellProperties.BuiltinLine | CustomShellProject.c:252-286 | a built-in name followed by plain words is dispatched as that built-in with those arguments |
| ShellProperties.PathLineReplaces | CustomShellProject.c:278-283 | `path d1 ... dk` replaces the search path with `[d1, ..., dk]` and has no other effect |
| ShellProperties.BarePathEmptiesPath | CustomShellProject.c:278-283 | a bare `path` empties the search path |
| ShellProperties.PathLineIdempotent | CustomShellProject.c:278-283 | repeating a `path` line gives the same state and effects as doing it once |
| ShellProperties.ExternalLine | CustomShellProject.c:284-285 | an external command line runs `execute_command` once with its words; with an empty path the line's only effect is one error |
| ShellProperties.ExitLine | CustomShellProject.c:266-271 | `exit` alone ends the loop; `exit` with arguments reports one error and the loop goes on |
| ShellProperties.CdLine | CustomShellProject.c:272-277 | `cd d` changes directory when `chdir` succeeds and reports an error otherwise; any other number of arguments is an error |
| ShellProperties.ExitIsLast | CustomShellProject.c:209-271 | leaving the loop is always the last effect of a session |
| ShellProperties.BlankSessionSilent | CustomShellProject.c:209-226 | input of blank lines only has no effect |
| ShellProperties.StartupError | CustomShellProject.c:199-202 | any command-line argument gives one error and exit status 1, and no line is read |
| ShellProperties.TwoLineSession | CustomShellProject.c:205-287 | two lines neither of which exits: the second runs with the path the first left, and the session's effects are those of the first followed by those of the second, with status 0 |
| ShellProperties.EmptyPathDisablesCommands | CustomShellProject.c:278-285 | after a bare `path`, an external command on the next line fails with one error |
| ProducerConsumer.WindowPush | Multithreaded.c:60-67 | writing at `buffer_in` and advancing it appends the character to the queue the slots hold |
| ProducerConsumer.WindowPop | Multithreaded.c:111-119 | the slot at `buffer_out` is the oldest queued character, and advancing `buffer_out` removes exactly it |
| ProducerConsumer.SharedBuffer.constructor | Multithreaded.c:26-38 | the globals start at zero: an empty buffer, production not complete |
| ProducerConsumer.SharedBuffer.Reset | Multithreaded.c:140-143 | each round starts with counter, indices and flag at zero and an empty queue; the slots themselves are not cleared |
| ProducerConsumer.SharedBuffer.Produce | Multithreaded.c:53-67 | allowed only when not full. It writes at `buffer_in` and leaves every other slot unchanged, wraps `buffer_in` modulo 15 and increments the counter. The queue gains the character at its end, and the invariant is kept |
| ProducerConsumer.SharedBuffer.Consume | Multithreaded.c:97-119 | allowed only when not empty. It returns the slot at `buffer_out`, which is the oldest queued character, wraps `buffer_out` modulo 15 and decrements the counter. The queue loses its head, and the invariant is kept |
| ProducerConsumer.SharedBuffer.CompleteProduction | Multithreaded.c:76-80 | sets the completion flag and changes nothing else |
| ProducerConsumer.RunRound | Multithreaded.c:41-131 | for every schedule, neither thread waits forever and the round ends with the buffer empty and production complete. Every character is produced and consumed exactly once, in input order. At every point the consumed characters are a prefix of the produced ones, at most 15 behind |
| ProducerConsumer.NextLine | Multithreaded.c:149-161 | a line read is at most 50 characters, has no newline, and at least one character of non-empty input is used up |
| ProducerConsumer.Fgets | Multithreaded.c:149 | `fgets` reads up to and including the first newline, but at most 50 characters and not past the end of input |
| ProducerConsumer.Strcspn | Multithreaded.c:153 | `strcspn` finds the first newline of what was read, or its end |
| ProducerConsumer.Flush | Multithreaded.c:158-160 | the `getchar` loop discards the input up to and including the next newline, or all of it |
| ProducerConsumer.ReadLine | Multithreaded.c:149-161 | `fgets`, the newline removal and the flush of an over-long line read exactly the next line, cut to 50 characters, and resume after its newline; end of input is reported exactly when nothing is left |
| ProducerConsumer.Iteration | Multithreaded.c:137-185 | one pass of the main loop: at end of input or on `exit` it stops with no round; otherwise the round's line is the next input line and that line is produced and consumed exactly, first in, first out |
| ProducerConsumer.RunProgram | Multithreaded.c:133-185 | the main loop runs one round per input line, in order, until `exit` or end of input, and each round produces and consumes exactly its line, first in, first out |
| ProducerConsumer.Inputs | Multithreaded.c:137-168 | defines the lines the main loop hands to rounds, in order: each next line as read, up to the line `exit` or end of input |
| ProducerConsumer.InputsAreLines | Multithreaded.c:149-168 | every round's line is at most 50 characters, has no newline and is not `exit`, so the producer emits exactly that many characters |
| ProducerConsumer.ShortLineIsRound | Multithreaded.c:149-153 | a line of at most 50 characters followed by a newline becomes exactly one round, and reading goes on after it |
| ProducerConsumer.LongLineIsTruncated | Multithreaded.c:149-161 | a longer line is cut to its first 50 characters and the rest of it is discarded |
| ProducerConsumer.ExitEndsProgram | Multithreaded.c:164-168 | the exact line `exit` ends the program without running a round, whatever follows |
| ProducerConsumer.LastLineWithoutNewline | Multithreaded.c:149-153 | a last line without a newline is still handed to a round |

## Left out

- Interactive I/O is not modelled: printing the prompt, `getline`, `write` to standard error, and the `printf` tracing other than the order of the `Produced`/`Consumed` lines. Standard input is the sequence of lines, or of characters for Multithreaded.c. Errors and launches are effects.
- The operating system is not modelled. `access`, `chdir` and `fork` are the oracle `Os`, given per input line. Inside the child, `open`/`dup2`/`close` for redirection and `execv` are not modelled, nor the errors they print. Such a child's launch is the end of what the model follows.
- The model does not wait for children: the `waitpid` of `execute_command` and the join loop of `execute_parallel_commands`, CustomShellProject.c:119-123. That loop also passes `waitpid` the unset `pids[i]` of skipped members. The order in which children's output interleaves is not modelled: batch effects are listed in launch order.
- Memory management is not modelled: `malloc`/`strdup`/`free` of the path and of the input buffer.
- Characters stand for bytes. A NUL byte inside a line, which would end the C string early, is not modelled; nor is non-ASCII `isspace`.
- `trim` writes a NUL terminator into the line buffer. That write is modelled by the slice bounds the method returns.
- The shell's standard input is a sequence of lines, since `getline` returns one line at a time. A line's final newline is removed as in CustomShellProject.c:219-221.
- ProducerConsumer.RunRound: the threads, mutex and condition variables are not modelled (Multithreaded.c:33-35, 50-56, 70-73, 176-190). A schedule picks which thread's next critical section runs, and the other thread runs when that one is blocked. Each critical section is atomic. Because of that, the round is one loop rather than the producer's `for` loop and the consumer's `while (1)` loop as separate threads.
- ProducerConsumer.ReadLine: standard input is a string consumed from an offset, not a stream. The condition `input[MAX_INPUT - 1] != '\n'` before the flush is always true once `strcspn` has removed the newline. The model keeps it as written.
- MutexLocks.c is not part of this model. It is a separate program: zlib compression, directory I/O, threads and timing.

## Behaviour worth knowing

The model follows these behaviours of the code, some of which a reader might not expect:

- In a parallel batch, a malformed member does not just skip that member. It aborts the whole launch loop with one error, and later members do not run (CustomShellProject.c:89-91).
- After a failed `fork` in a batch, the code returns without joining the children already launched (CustomShellProject.c:113-116).
- The batch tokenizer accepts a `>` before any argument and keeps tokens after the file name as arguments. `parse_command` rejects both (CustomShellProject.c:84-97).
- Both tokenizers stop once 63 arguments are collected, and silently drop the remaining tokens, including any later `>`. A `>` and its file name are not arguments, so of the 66 tokens of a batch member such as `> f a1 ... a63 b` only `b` is dropped (CustomShellProject.c:53, 84).
