/**
 * The shell's session (CustomShellProject.c): the search path, command
 * resolution in `execute_command`, the launch loop of
 * `execute_parallel_commands`, the handling of one input line in `main`, and
 * the read loop around it.
 *
 * The operating system is a parameter (`Os`): which candidate files are
 * executable (`access`), which directories `chdir` accepts, and which process
 * creations (`fork`) succeed. What the shell does to the world is a list of
 * effects: the uniform error message, the launch of a program, a change of
 * working directory, and leaving the loop.
 */
module Shell {
  import opened Wrappers
  import opened ShellText
  import opened Tokenizer
  import opened CommandParser

  /** MAX_INPUT_SIZE: the size of the buffer a candidate program path is formatted into. */
  const MaxInputSize := 255
  /** The search path a session starts with. */
  const DefaultPath: seq<string> := ["/bin"]

  datatype Effect =
    | Error                                                       // "An error has occurred" on stderr
    | Launch(program: string, argv: seq<string>, target: Option<string>)  // a child running `program` with `argv`, stdout to `target` if any
    | Chdir(dir: string)                                          // a successful `chdir`
    | Exit                                                        // the read loop ends

  /** The process creations one line can attempt. */
  datatype ForkSite =
    | SingleFork            // in `execute_command` for a single command
    | MemberFork(i: nat)    // in `execute_parallel_commands` for batch member i
    | ChildFork(i: nat)     // in `execute_command`, inside the child of batch member i

  datatype Os = Os(executable: string -> bool, chdirOk: string -> bool, forkOk: ForkSite -> bool)

  /** `snprintf(full_path, MAX_INPUT_SIZE, "%s/%s", dir, command)`: the candidate, cut to 254 characters. */
  function Candidate(dir: string, command: string): (r: string)
    ensures |r| < MaxInputSize && |r| <= |dir + "/" + command|
    ensures r == (dir + "/" + command)[..|r|]
    ensures |dir + "/" + command| < MaxInputSize ==> r == dir + "/" + command
  {
    var full := dir + "/" + command;
    if |full| < MaxInputSize then full else full[..MaxInputSize - 1]
  }

  /** The first executable candidate over the search path, in order. */
  function Resolve(dirs: seq<string>, command: string, executable: string -> bool): (r: Option<string>)
    ensures r.Some? ==> executable(r.value)
    ensures r.Some? ==> exists i :: 0 <= i < |dirs| && r.value == Candidate(dirs[i], command)
  {
    if dirs == [] then None
    else if executable(Candidate(dirs[0], command)) then Some(Candidate(dirs[0], command))
    else Resolve(dirs[1..], command, executable)
  }

  /** The outcome of `execute_command` as seen by its caller. */
  function ExecEffect(dirs: seq<string>, command: string, args: seq<string>, target: Option<string>,
                      executable: string -> bool, forkOk: bool): (r: Effect)
    ensures r == Error || r.Launch?
    ensures r.Launch? <==> forkOk && Resolve(dirs, command, executable).Some?
    ensures r.Launch? ==> executable(r.program) && r.argv == args && r.target == target
  {
    match Resolve(dirs, command, executable)
    case None => Error
    case Some(program) => if forkOk then Launch(program, args, target) else Error
  }

  /** Resolution picks the candidate of the first directory whose candidate is executable. */
  lemma {:induction false} ResolveFirstMatch(dirs: seq<string>, command: string, executable: string -> bool, i: nat)
    requires i < |dirs| && executable(Candidate(dirs[i], command))
    requires forall j :: 0 <= j < i ==> !executable(Candidate(dirs[j], command))
    ensures Resolve(dirs, command, executable) == Some(Candidate(dirs[i], command))
  {
    if i > 0 {
      ResolveFirstMatch(dirs[1..], command, executable, i - 1);
    }
  }

  /** Resolution fails exactly when no candidate is executable, in particular on an empty path. */
  lemma {:induction false} ResolveNoMatch(dirs: seq<string>, command: string, executable: string -> bool)
    ensures Resolve(dirs, command, executable) == None <==>
      forall j :: 0 <= j < |dirs| ==> !executable(Candidate(dirs[j], command))
  {
    if dirs != [] {
      ResolveNoMatch(dirs[1..], command, executable);
      assert forall j :: 1 <= j < |dirs| ==> dirs[1..][j - 1] == dirs[j];
    }
  }

  /** What happens to batch member `i` in the parent's launch loop. */
  datatype Member = Skip | Abort | Child(cmd: Command)

  function MemberOf(commands: seq<string>, i: nat, os: Os): (r: Member)
    requires i < |commands|
    ensures r.Child? ==> r.cmd.args != []
  {
    match LooseParse(Tokens(commands[i], Blanks))
    case None => Abort
    case Some(c) =>
      if c.args == [] then Skip
      else if os.forkOk(MemberFork(i)) then Child(c)
      else Abort
  }

  /** The effects of batch members `i` onwards, in launch order; an abort ends the batch. */
  function BatchFrom(dirs: seq<string>, commands: seq<string>, os: Os, i: nat): seq<Effect>
    decreases |commands| - i
  {
    if i >= |commands| then []
    else match MemberOf(commands, i, os)
      case Skip => BatchFrom(dirs, commands, os, i + 1)
      case Abort => [Error]
      case Child(c) =>
        [ExecEffect(dirs, c.args[0], c.args, c.target, os.executable, os.forkOk(ChildFork(i)))]
        + BatchFrom(dirs, commands, os, i + 1)
  }

  function Batch(dirs: seq<string>, commands: seq<string>, os: Os): seq<Effect>
  {
    BatchFrom(dirs, commands, os, 0)
  }

  /** One member's share of the batch. */
  lemma BatchFromAt(dirs: seq<string>, commands: seq<string>, os: Os, i: nat)
    requires i < |commands|
    ensures var m := MemberOf(commands, i, os);
      && (m == Skip ==> BatchFrom(dirs, commands, os, i) == BatchFrom(dirs, commands, os, i + 1))
      && (m == Abort ==> BatchFrom(dirs, commands, os, i) == [Error])
      && (m.Child? ==>
            BatchFrom(dirs, commands, os, i) ==
            [ExecEffect(dirs, m.cmd.args[0], m.cmd.args, m.cmd.target, os.executable, os.forkOk(ChildFork(i)))]
            + BatchFrom(dirs, commands, os, i + 1))
  {
  }

  ghost predicate BatchAborts(commands: seq<string>, os: Os)
  {
    exists i :: 0 <= i < |commands| && MemberOf(commands, i, os) == Abort
  }

  /** The shell's state after one line and what handling the line did. */
  datatype StepResult = StepResult(path: seq<string>, effects: seq<Effect>)

  /** `getline` keeps the newline; `main` removes it when it is the last character. */
  function StripNewline(line: string): string
  {
    if |line| > 0 && line[|line| - 1] == '\n' then line[..|line| - 1] else line
  }

  /** Built-in dispatch for a single, non-empty command; anything else is external. */
  function RunSingle(dirs: seq<string>, c: Command, os: Os): (r: StepResult)
    requires c.args != []
    ensures |r.effects| <= 1
    ensures r.path != dirs ==> c.args[0] == "path"
    ensures r.effects == [Exit] <==> c.args == ["exit"]
  {
    var name := c.args[0];
    if name == "exit" then StepResult(dirs, if |c.args| > 1 then [Error] else [Exit])
    else if name == "cd" then
      StepResult(dirs, if |c.args| != 2 then [Error] else if os.chdirOk(c.args[1]) then [Chdir(c.args[1])] else [Error])
    else if name == "path" then StepResult(c.args[1..], [])
    else StepResult(dirs, [ExecEffect(dirs, name, c.args, c.target, os.executable, os.forkOk(SingleFork))])
  }

  /** The line as `main` works on it: newline removed, then trimmed. */
  function LineText(line: string): string
  {
    Trimmed(StripNewline(line))
  }

  /** One pass of the read loop of `main` over an input line. */
  function StepSpec(dirs: seq<string>, line: string, os: Os): (r: StepResult)
    ensures r.path != dirs ==> r.effects == []
  {
    var text := LineText(line);
    if AllSpace(text) then StepResult(dirs, [])
    else
      var pieces := Pieces(text);
      if pieces == [] then StepResult(dirs, [])
      else if |pieces| > 1 then StepResult(dirs, Batch(dirs, pieces, os))
      else match StrictParse(Tokens(pieces[0], Blanks))
        case None => StepResult(dirs, [Error])
        case Some(c) => if c.args == [] then StepResult(dirs, []) else RunSingle(dirs, c, os)
  }

  /** The effects of the read loop from line `k` on; it stops after `exit` or at end of input. */
  function SessionFrom(dirs: seq<string>, lines: seq<string>, env: nat -> Os, k: nat): seq<Effect>
    decreases |lines| - k
  {
    if k >= |lines| then []
    else
      var r := StepSpec(dirs, lines[k], env(k));
      if r.effects == [Exit] then r.effects else r.effects + SessionFrom(r.path, lines, env, k + 1)
  }

  datatype Outcome = Outcome(effects: seq<Effect>, status: int)

  /** The whole program: any command-line argument is a startup error with exit status 1. */
  function Session(argv: seq<string>, lines: seq<string>, env: nat -> Os): Outcome
  {
    if |argv| > 0 then Outcome([Error], 1) else Outcome(SessionFrom(DefaultPath, lines, env, 0), 0)
  }

  /** The session state: the global `path` array and its size, as one sequence. */
  class ShellState {
    var path: seq<string>

    /** `initialize_path`. */
    constructor ()
      ensures path == DefaultPath
    {
      path := DefaultPath;
    }

    /** `update_path`: the old path is discarded and the new one installed as given. */
    method UpdatePath(newPath: seq<string>)
      modifies this
      ensures path == newPath
    {
      path := newPath;
    }

    /**
     * `execute_command`: tries the candidates over the path in order; the first
     * executable one is launched (status 0, or -1 with an error when `fork`
     * fails) and no later one is tried; none gives one error and -1.
     */
    method ExecuteCommand(command: string, args: seq<string>, target: Option<string>,
                          executable: string -> bool, forkOk: bool) returns (status: int, effect: Effect)
      ensures effect == ExecEffect(path, command, args, target, executable, forkOk)
      ensures status == (if effect.Launch? then 0 else -1)
    {
      var i := 0;
      while i < |path|
        invariant i <= |path|
        invariant Resolve(path[i..], command, executable) == Resolve(path, command, executable)
      {
        assert path[i..][1..] == path[i + 1..];
        var fullPath := Candidate(path[i], command);
        if executable(fullPath) {
          if forkOk {
            return 0, Launch(fullPath, args, target);
          } else {
            return -1, Error;
          }
        }
        i := i + 1;
      }
      return -1, Error;
    }

    /**
     * The launch loop of `execute_parallel_commands`: members are tokenized one
     * by one; a member without arguments is skipped; a malformed member or a
     * failed `fork` reports one error and ends the batch (-1); every other
     * member's child runs `execute_command`.
     */
    method ExecuteParallelCommands(commands: seq<string>, os: Os) returns (status: int, effects: seq<Effect>)
      ensures effects == Batch(path, commands, os)
      ensures status == (if BatchAborts(commands, os) then -1 else 0)
    {
      effects := [];
      var i := 0;
      while i < |commands|
        invariant i <= |commands|
        invariant effects + BatchFrom(path, commands, os, i) == Batch(path, commands, os)
        invariant forall j :: 0 <= j < i ==> MemberOf(commands, j, os) != Abort
      {
        var abort, e := LaunchMember(commands, i, os);
        BatchFromAt(path, commands, os, i);
        if abort {
          effects := effects + e;
          return -1, effects;
        }
        AppendAssoc(effects, e, BatchFrom(path, commands, os, i + 1));
        effects := effects + e;
        i := i + 1;
      }
      status := 0;
    }

    /**
     * One turn of that loop, for member `i`: nothing for a member without
     * arguments, one error for a malformed member or a failed `fork`, and
     * otherwise what the child's `execute_command` does.
     */
    method LaunchMember(commands: seq<string>, i: nat, os: Os) returns (abort: bool, effects: seq<Effect>)
      requires i < |commands|
      ensures abort <==> MemberOf(commands, i, os) == Abort
      ensures match MemberOf(commands, i, os)
        case Skip => effects == []
        case Abort => effects == [Error]
        case Child(c) => effects == [ExecEffect(path, c.args[0], c.args, c.target, os.executable, os.forkOk(ChildFork(i)))]
    {
      var args := new Option<string>[MaxArgs](_ => None);
      var n, outputFile := ParseMember(commands[i], args);
      if n == -1 {
        return true, [Error];
      }
      if n == 0 {
        return false, [];
      }
      if !os.forkOk(MemberFork(i)) {
        return true, [Error];
      }
      ghost var c := LooseParse(Tokens(commands[i], Blanks)).value;
      var argv := Values(args[..n]);
      assert argv == c.args;
      var _, e := ExecuteCommand(argv[0], argv, outputFile, os.executable, os.forkOk(ChildFork(i)));
      return false, [e];
    }

    /** One pass of the read loop of `main` (after a line was read). */
    method Step(line: string, os: Os) returns (effects: seq<Effect>)
      modifies this
      ensures StepResult(path, effects) == StepSpec(old(path), line, os)
    {
      var input := line;
      if |input| > 0 && input[|input| - 1] == '\n' {
        input := input[..|input| - 1];
      }
      var lo, hi := Trim(input);
      var trimmed := input[lo..hi];
      var blank := IsEmptyOrWhitespace(trimmed);
      if blank {
        return [];
      }
      var pieces := SplitParallel(trimmed);
      if |pieces| == 0 {
        return [];
      }
      if |pieces| > 1 {
        var _, batch := ExecuteParallelCommands(pieces, os);
        return batch;
      }
      var args := new Option<string>[MaxArgs](_ => None);
      var n, outputFile := ParseCommand(pieces[0], args);
      if n == -1 {
        return [Error];
      }
      if n == 0 {
        return [];
      }
      var c := StrictParse(Tokens(pieces[0], Blanks)).value;
      var argv := Values(args[..n]);
      assert argv == c.args;
      if argv[0] == "exit" {
        if n > 1 {
          return [Error];
        }
        return [Exit];
      } else if argv[0] == "cd" {
        if n != 2 {
          return [Error];
        } else if !os.chdirOk(argv[1]) {
          return [Error];
        }
        return [Chdir(argv[1])];
      } else if argv[0] == "path" {
        UpdatePath(argv[1..]);
        return [];
      }
      var _, e := ExecuteCommand(argv[0], argv, outputFile, os.executable, os.forkOk(SingleFork));
      return [e];
    }
  }

  /** One line of the read loop extends the effects so far towards the whole session. */
  lemma SessionStep(dirs: seq<string>, lines: seq<string>, env: nat -> Os, k: nat, r: StepResult,
                    done: seq<Effect>, total: seq<Effect>)
    requires k < |lines| && r == StepSpec(dirs, lines[k], env(k))
    requires done + SessionFrom(dirs, lines, env, k) == total
    ensures r.effects == [Exit] ==> done + r.effects == total
    ensures r.effects != [Exit] ==> (done + r.effects) + SessionFrom(r.path, lines, env, k + 1) == total
  {
    if r.effects != [Exit] {
      var later := SessionFrom(r.path, lines, env, k + 1);
      assert SessionFrom(dirs, lines, env, k) == r.effects + later;
      AppendAssoc(done, r.effects, later);
    }
  }

  /**
   * `main`: rejects any command-line argument, then handles the lines of
   * standard input, the k-th under the operating system state `env(k)`, until
   * `exit` or end of input.
   */
  method RunShell(argv: seq<string>, lines: seq<string>, env: nat -> Os) returns (effects: seq<Effect>, status: int)
    ensures Outcome(effects, status) == Session(argv, lines, env)
  {
    if |argv| > 0 {
      return [Error], 1;
    }
    var shell := new ShellState();
    effects := [];
    var k := 0;
    while k < |lines|
      invariant k <= |lines|
      invariant effects + SessionFrom(shell.path, lines, env, k) == SessionFrom(DefaultPath, lines, env, 0)
    {
      ghost var before := shell.path;
      var e := shell.Step(lines[k], env(k));
      SessionStep(before, lines, env, k, StepResult(shell.path, e), effects, SessionFrom(DefaultPath, lines, env, 0));
      effects := effects + e;
      if e == [Exit] {
        return effects, 0;
      }
      k := k + 1;
    }
    status := 0;
  }
}
