/**
 * Properties of the shell's line handling and session (CustomShellProject.c),
 * stated over the reference functions of module Shell.
 */
module ShellProperties {
  import opened Wrappers
  import opened ShellText
  import opened Tokenizer
  import opened CommandParser
  import opened Shell

  // ---------------------------------------------------------------------------
  // Parallel batches

  /** Batch members never reach a built-in: every effect is an error or a launch. */
  lemma {:induction false} BatchOnlyExternal(dirs: seq<string>, commands: seq<string>, os: Os, i: nat)
    ensures forall k :: 0 <= k < |BatchFrom(dirs, commands, os, i)| ==>
      BatchFrom(dirs, commands, os, i)[k].Error? || BatchFrom(dirs, commands, os, i)[k].Launch?
    decreases |commands| - i
  {
    if i < |commands| {
      BatchOnlyExternal(dirs, commands, os, i + 1);
    }
  }

  /** A member's fate depends only on its own text and position. */
  lemma MemberOfPrefix(commands: seq<string>, i: nat, j: nat, os: Os)
    requires j < i <= |commands|
    ensures MemberOf(commands[..i], j, os) == MemberOf(commands, j, os)
  {
    assert commands[..i][j] == commands[j];
  }

  lemma {:induction false} BatchFromSplit(dirs: seq<string>, commands: seq<string>, os: Os, k: nat, i: nat)
    requires k <= i <= |commands|
    requires forall j :: k <= j < i ==> MemberOf(commands, j, os) != Abort
    ensures BatchFrom(dirs, commands, os, k) == BatchFrom(dirs, commands[..i], os, k) + BatchFrom(dirs, commands, os, i)
    decreases i - k
  {
    if k < i {
      BatchFromSplit(dirs, commands, os, k + 1, i);
      MemberOfPrefix(commands, i, k, os);
    }
  }

  /**
   * Members run in left-to-right order: when none of the first `i` members
   * aborts, their effects come first, then those of the rest.
   */
  lemma BatchSplit(dirs: seq<string>, commands: seq<string>, os: Os, i: nat)
    requires i <= |commands|
    requires forall j :: 0 <= j < i ==> MemberOf(commands, j, os) != Abort
    ensures Batch(dirs, commands, os) == Batch(dirs, commands[..i], os) + BatchFrom(dirs, commands, os, i)
  {
    BatchFromSplit(dirs, commands, os, 0, i);
  }

  /**
   * A malformed member, or a member whose `fork` fails, reports one error and
   * ends the batch: no later member is tokenized or launched.
   */
  lemma BatchAbortEnds(dirs: seq<string>, commands: seq<string>, os: Os, i: nat)
    requires i < |commands| && MemberOf(commands, i, os) == Abort
    requires forall j :: 0 <= j < i ==> MemberOf(commands, j, os) != Abort
    ensures Batch(dirs, commands, os) == Batch(dirs, commands[..i], os) + [Error]
    ensures BatchAborts(commands, os)
  {
    BatchSplit(dirs, commands, os, i);
  }

  /** A member with no arguments launches nothing and reports nothing. */
  lemma BatchSkipsEmptyMember(dirs: seq<string>, commands: seq<string>, os: Os, i: nat)
    requires i < |commands| && MemberOf(commands, i, os) == Skip
    requires forall j :: 0 <= j < i ==> MemberOf(commands, j, os) != Abort
    ensures Batch(dirs, commands, os) == Batch(dirs, commands[..i], os) + BatchFrom(dirs, commands, os, i + 1)
  {
    BatchSplit(dirs, commands, os, i);
  }

  // ---------------------------------------------------------------------------
  // One line

  /** An empty or whitespace-only line does nothing: no effect, no error, path unchanged. */
  lemma BlankLineDoesNothing(dirs: seq<string>, line: string, os: Os)
    requires AllSpace(line)
    ensures StepSpec(dirs, line, os) == StepResult(dirs, [])
  {
    var s := StripNewline(line);
    assert AllSpace(s);
    TrimmedEmptyIff(s);
  }

  /** With more than one piece no built-in runs: the path stays and nothing exits or changes directory. */
  lemma BuiltinsNeedSinglePiece(dirs: seq<string>, line: string, os: Os)
    requires |Pieces(LineText(line))| > 1
    ensures StepSpec(dirs, line, os).path == dirs
    ensures forall k :: 0 <= k < |StepSpec(dirs, line, os).effects| ==>
      StepSpec(dirs, line, os).effects[k].Error? || StepSpec(dirs, line, os).effects[k].Launch?
  {
    BatchOnlyExternal(dirs, Pieces(LineText(line)), os, 0);
  }

  /** A line with at most one piece has at most one effect. */
  lemma SinglePieceAtMostOneEffect(dirs: seq<string>, line: string, os: Os)
    requires |Pieces(LineText(line))| <= 1
    ensures |StepSpec(dirs, line, os).effects| <= 1
  {
  }

  /**
   * The path changes only through the `path` built-in of a single command,
   * and then becomes exactly its arguments, in order, duplicates kept.
   */
  lemma PathChangesOnlyByBuiltin(dirs: seq<string>, line: string, os: Os)
    ensures var r := StepSpec(dirs, line, os);
      r.path == dirs ||
      (&& |Pieces(LineText(line))| == 1
       && var p := StrictParse(Tokens(Pieces(LineText(line))[0], Blanks));
          p.Some? && p.value.args != [] && p.value.args[0] == "path" && r.path == p.value.args[1..])
  {
  }

  /** Leaving the loop happens only on a single command that is exactly `exit`, and it is the line's only effect. */
  lemma ExitOnlyAlone(dirs: seq<string>, line: string, os: Os)
    requires Exit in StepSpec(dirs, line, os).effects
    ensures StepSpec(dirs, line, os).effects == [Exit]
    ensures |Pieces(LineText(line))| == 1
    ensures var p := StrictParse(Tokens(Pieces(LineText(line))[0], Blanks));
      p.Some? && p.value.args == ["exit"]
  {
    var pieces := Pieces(LineText(line));
    BatchOnlyExternal(dirs, pieces, os, 0);
    var c := StrictParse(Tokens(pieces[0], Blanks)).value;
    assert c.args[0] == "exit" && |c.args| == 1;
  }

  // ---------------------------------------------------------------------------
  // Whole command lines of plain words

  /** A word that needs no quoting: no whitespace, no `&`, not the redirection marker. */
  ghost predicate PlainWord(w: string)
  {
    w != [] && w != ">" && forall k :: 0 <= k < |w| ==> !IsSpace(w[k]) && w[k] != '&'
  }

  /** A line that starts and ends with a non-space character and has no `&` is its own text and a single piece. */
  lemma SinglePieceLine(line: string)
    requires line != [] && !IsSpace(line[0]) && !IsSpace(line[|line| - 1])
    requires forall k :: 0 <= k < |line| ==> line[k] != '&'
    ensures LineText(line) == line && !AllSpace(line) && Pieces(line) == [line]
  {
    assert StripNewline(line) == line;
    TrimmedUnique(line, 0, |line|);
    assert line[0..|line|] == line;
    TokensOfWord(line, Separators);
    assert NonEmptyTrimmed([line]) == [line];
  }

  /** A line of plain words keeps its text through newline removal and trimming, and is a single piece. */
  lemma LineOfWords(ws: seq<string>)
    requires 0 < |ws| < MaxArgs
    requires forall i :: 0 <= i < |ws| ==> PlainWord(ws[i])
    ensures var line := JoinWith(ws, ' ');
      LineText(line) == line && !AllSpace(line) && Pieces(line) == [line]
  {
    var line := JoinWith(ws, ' ');
    JoinWithEnds(ws, ' ');
    var last := ws[|ws| - 1];
    assert !IsSpace(ws[0][0]) && !IsSpace(last[|last| - 1]);
    JoinWithAvoids(ws, ' ', Separators);
    SinglePieceLine(line);
  }

  /** A line of plain words tokenizes back into its words and parses with no output file. */
  lemma ParseOfWords(ws: seq<string>)
    requires 0 < |ws| < MaxArgs
    requires forall i :: 0 <= i < |ws| ==> PlainWord(ws[i])
    ensures StrictParse(Tokens(JoinWith(ws, ' '), Blanks)) == Some(Command(ws, None))
  {
    forall i | 0 <= i < |ws| ensures IsWord(ws[i], Blanks) {
      assert forall k :: 0 <= k < |ws[i]| ==> !IsSpace(ws[i][k]);
    }
    TokensOfJoin(ws, ' ', Blanks);
    assert NoRedirect(ws);
    StrictParsePlain(ws);
  }

  /**
   * The line `w1 w2 ... wn` of plain words (fewer than MAX_ARGS of them) is
   * dispatched as the single command with exactly those arguments and no output file.
   */
  lemma CommandLine(dirs: seq<string>, ws: seq<string>, os: Os)
    requires 0 < |ws| < MaxArgs
    requires forall i :: 0 <= i < |ws| ==> PlainWord(ws[i])
    ensures StepSpec(dirs, JoinWith(ws, ' '), os) == RunSingle(dirs, Command(ws, None), os)
  {
    LineOfWords(ws);
    ParseOfWords(ws);
  }

  lemma BuiltinNamesArePlain()
    ensures PlainWord("exit") && PlainWord("cd") && PlainWord("path")
  {
  }

  /** Prefixing a command name to plain arguments keeps every word plain. */
  lemma PrefixedWords(name: string, rest: seq<string>)
    requires name in {"exit", "cd", "path"}
    requires forall i :: 0 <= i < |rest| ==> PlainWord(rest[i])
    ensures forall i :: 0 <= i < |[name] + rest| ==> PlainWord(([name] + rest)[i])
  {
    BuiltinNamesArePlain();
    forall i | 0 <= i < |[name] + rest| ensures PlainWord(([name] + rest)[i]) {
      if i > 0 { assert ([name] + rest)[i] == rest[i - 1]; }
    }
  }

  /** A built-in name followed by plain words is dispatched as that built-in with those arguments. */
  lemma BuiltinLine(dirs: seq<string>, name: string, rest: seq<string>, os: Os)
    requires name in {"exit", "cd", "path"}
    requires |rest| < MaxArgs - 1
    requires forall i :: 0 <= i < |rest| ==> PlainWord(rest[i])
    ensures StepSpec(dirs, JoinWith([name] + rest, ' '), os) == RunSingle(dirs, Command([name] + rest, None), os)
  {
    PrefixedWords(name, rest);
    CommandLine(dirs, [name] + rest, os);
  }

  /** `path d1 ... dk` replaces the path with `[d1, ..., dk]`, in order, and does nothing else. */
  lemma PathLineReplaces(dirs: seq<string>, newDirs: seq<string>, os: Os)
    requires |newDirs| < MaxArgs - 1
    requires forall i :: 0 <= i < |newDirs| ==> PlainWord(newDirs[i])
    ensures StepSpec(dirs, JoinWith(["path"] + newDirs, ' '), os) == StepResult(newDirs, [])
  {
    BuiltinLine(dirs, "path", newDirs, os);
    assert (["path"] + newDirs)[1..] == newDirs;
  }

  /** A bare `path` empties the search path. */
  lemma BarePathEmptiesPath(dirs: seq<string>, os: Os)
    ensures StepSpec(dirs, "path", os) == StepResult([], [])
  {
    PathLineReplaces(dirs, [], os);
    assert ["path"] + [] == ["path"];
  }

  /** Repeating the same `path` line gives the state and effects of doing it once. */
  lemma PathLineIdempotent(dirs: seq<string>, newDirs: seq<string>, os: Os)
    requires |newDirs| < MaxArgs - 1
    requires forall i :: 0 <= i < |newDirs| ==> PlainWord(newDirs[i])
    ensures var line := JoinWith(["path"] + newDirs, ' ');
      StepSpec(StepSpec(dirs, line, os).path, line, os) == StepSpec(dirs, line, os)
  {
    PathLineReplaces(dirs, newDirs, os);
    PathLineReplaces(newDirs, newDirs, os);
  }

  ghost predicate IsBuiltin(name: string)
  {
    name == "exit" || name == "cd" || name == "path"
  }

  /** An external command line runs `execute_command` once; with an empty path that is one error. */
  lemma ExternalLine(dirs: seq<string>, ws: seq<string>, os: Os)
    requires 0 < |ws| < MaxArgs && !IsBuiltin(ws[0])
    requires forall i :: 0 <= i < |ws| ==> PlainWord(ws[i])
    ensures StepSpec(dirs, JoinWith(ws, ' '), os) ==
      StepResult(dirs, [ExecEffect(dirs, ws[0], ws, None, os.executable, os.forkOk(SingleFork))])
    ensures dirs == [] ==> StepSpec(dirs, JoinWith(ws, ' '), os) == StepResult([], [Error])
  {
    CommandLine(dirs, ws, os);
  }

  /** `exit` alone ends the loop; `exit` with arguments reports an error and the loop goes on. */
  lemma ExitLine(dirs: seq<string>, extra: seq<string>, os: Os)
    requires |extra| < MaxArgs - 1
    requires forall i :: 0 <= i < |extra| ==> PlainWord(extra[i])
    ensures StepSpec(dirs, JoinWith(["exit"] + extra, ' '), os) ==
      StepResult(dirs, if extra == [] then [Exit] else [Error])
  {
    BuiltinLine(dirs, "exit", extra, os);
  }

  /** `cd d` changes directory when `chdir` succeeds and reports an error otherwise; other arities are errors. */
  lemma CdLine(dirs: seq<string>, rest: seq<string>, os: Os)
    requires |rest| < MaxArgs - 1
    requires forall i :: 0 <= i < |rest| ==> PlainWord(rest[i])
    ensures StepSpec(dirs, JoinWith(["cd"] + rest, ' '), os) ==
      StepResult(dirs, if |rest| == 1 && os.chdirOk(rest[0]) then [Chdir(rest[0])] else [Error])
  {
    BuiltinLine(dirs, "cd", rest, os);
  }

  // ---------------------------------------------------------------------------
  // The session

  /** No effect but the last one leaves the loop. */
  ghost predicate ExitOnlyLast(s: seq<Effect>)
  {
    forall i :: 0 <= i < |s| - 1 ==> s[i] != Exit
  }

  lemma AppendExitFree(a: seq<Effect>, b: seq<Effect>)
    requires Exit !in a && ExitOnlyLast(b)
    ensures ExitOnlyLast(a + b)
  {
    forall i | 0 <= i < |a + b| - 1 ensures (a + b)[i] != Exit {
      if i >= |a| {
        assert (a + b)[i] == b[i - |a|];
      }
    }
  }

  /** `exit` is always the last effect of a session: nothing is handled after it. */
  lemma {:induction false} ExitIsLast(dirs: seq<string>, lines: seq<string>, env: nat -> Os, k: nat)
    ensures ExitOnlyLast(SessionFrom(dirs, lines, env, k))
    decreases |lines| - k
  {
    if k < |lines| {
      var r := StepSpec(dirs, lines[k], env(k));
      if r.effects != [Exit] {
        ExitIsLast(r.path, lines, env, k + 1);
        if Exit in r.effects {
          ExitOnlyAlone(dirs, lines[k], env(k));
        }
        AppendExitFree(r.effects, SessionFrom(r.path, lines, env, k + 1));
      }
    }
  }

  /** Input of blank lines only has no effect. */
  lemma {:induction false} BlankSessionSilent(dirs: seq<string>, lines: seq<string>, env: nat -> Os, k: nat)
    requires forall i :: 0 <= i < |lines| ==> AllSpace(lines[i])
    ensures SessionFrom(dirs, lines, env, k) == []
    decreases |lines| - k
  {
    if k < |lines| {
      BlankLineDoesNothing(dirs, lines[k], env(k));
      BlankSessionSilent(dirs, lines, env, k + 1);
    }
  }

  /** Any command-line argument is a startup error: one error message, status 1, no line read. */
  lemma StartupError(argv: seq<string>, lines: seq<string>, env: nat -> Os)
    requires |argv| > 0
    ensures Session(argv, lines, env) == Outcome([Error], 1)
  {
  }

  /** A session of two lines neither of which exits has the effects of the first followed by those of the second. */
  lemma TwoLineSession(lines: seq<string>, env: nat -> Os, r0: StepResult, r1: StepResult)
    requires |lines| == 2
    requires r0 == StepSpec(DefaultPath, lines[0], env(0)) && r0.effects != [Exit]
    requires r1 == StepSpec(r0.path, lines[1], env(1)) && r1.effects != [Exit]
    ensures Session([], lines, env) == Outcome(r0.effects + r1.effects, 0)
  {
    var total := SessionFrom(DefaultPath, lines, env, 0);
    SessionStep(DefaultPath, lines, env, 0, r0, [], total);
    SessionStep(r0.path, lines, env, 1, r1, r0.effects, total);
    assert SessionFrom(r1.path, lines, env, 2) == [];
  }

  /** After a bare `path`, an external command on the next line fails resolution. */
  lemma EmptyPathDisablesCommands(lines: seq<string>, ws: seq<string>, env: nat -> Os)
    requires 0 < |ws| < MaxArgs && !IsBuiltin(ws[0])
    requires forall i :: 0 <= i < |ws| ==> PlainWord(ws[i])
    requires lines == ["path", JoinWith(ws, ' ')]
    ensures Session([], lines, env) == Outcome([Error], 0)
  {
    BarePathEmptiesPath(DefaultPath, env(0));
    ExternalLine([], ws, env(1));
    TwoLineSession(lines, env, StepResult([], []), StepResult([], [Error]));
  }
}
