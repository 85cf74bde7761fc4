/**
 * Turning one input line into commands (CustomShellProject.c): the split on
 * `&` in `main`, `parse_command` for a single command, and the looser inline
 * tokenizer that `execute_parallel_commands` runs on each batch member.
 */
module CommandParser {
  import opened Wrappers
  import opened ShellText
  import opened Tokenizer

  /** MAX_ARGS: the size of every argument array and of the batch array. */
  const MaxArgs := 64
  /** Arguments are separated by space and tab only. */
  const Blanks: set<char> := {' ', '\t'}
  /** The parallel separator. */
  const Separators: set<char> := {'&'}

  /** An argument vector (the program name first) and an optional output file. */
  datatype Command = Command(args: seq<string>, target: Option<string>)

  ghost predicate NoRedirect(toks: seq<string>)
  {
    forall k :: 0 <= k < |toks| ==> toks[k] != ">"
  }

  /** Position of the first `>` token, or the number of tokens when there is none. */
  function FirstRedirect(toks: seq<string>): (m: nat)
    ensures m <= |toks|
    ensures forall k :: 0 <= k < m ==> toks[k] != ">"
    ensures m < |toks| ==> toks[m] == ">"
  {
    if toks == [] || toks[0] == ">" then 0 else 1 + FirstRedirect(toks[1..])
  }

  lemma FirstRedirectAt(toks: seq<string>, m: nat)
    requires m <= |toks| && (m < |toks| ==> toks[m] == ">")
    requires forall k :: 0 <= k < m ==> toks[k] != ">"
    ensures FirstRedirect(toks) == m
  {
  }

  /** Fewer than MAX_ARGS tokens without `>` are all arguments, with no output file. */
  lemma StrictParsePlain(toks: seq<string>)
    requires NoRedirect(toks) && |toks| < MaxArgs
    ensures StrictParse(toks) == Some(Command(toks, None))
  {
    FirstRedirectAt(toks, |toks|);
    assert toks[..|toks|] == toks;
  }

  /**
   * What `parse_command` computes from the tokens of its input. Only the first
   * MAX_ARGS - 1 argument slots are scanned: once they are full, the rest of
   * the tokens, a `>` among them, is ignored.
   */
  function StrictParse(toks: seq<string>): (r: Option<Command>)
    ensures r.Some? ==> |r.value.args| < MaxArgs && |r.value.args| <= |toks| && r.value.args == toks[..|r.value.args|]
  {
    var m := FirstRedirect(toks);
    if m >= MaxArgs - 1 then Some(Command(toks[..MaxArgs - 1], None))
    else if m == |toks| then Some(Command(toks, None))
    else if m == 0 || m + 2 != |toks| then None
    else Some(Command(toks[..m], Some(toks[m + 1])))
  }

  /**
   * A successful parse keeps the tokens before any `>` in order, at most 63
   * of them; there is no output file unless a `>` was accepted, and then the
   * file is exactly the token after it and is the last token.
   */
  lemma StrictParseAccepts(toks: seq<string>)
    requires StrictParse(toks).Some?
    ensures var c := StrictParse(toks).value;
      && NoRedirect(c.args)
      && (c.target.None? ==> c.args == toks || |c.args| == MaxArgs - 1)
      && (c.target.Some? ==>
            && 0 < |c.args| && |toks| == |c.args| + 2
            && toks[|c.args|] == ">" && c.target.value == toks[|c.args| + 1])
  {
    var m := FirstRedirect(toks);
    var c := StrictParse(toks).value;
    assert forall k :: 0 <= k < |c.args| ==> c.args[k] == toks[k];
  }

  /**
   * `parse_command` fails exactly when a `>` among the scanned tokens is the
   * first token, has no token after it, or has a token (another `>` or
   * anything else) after its file name.
   */
  lemma StrictParseRejects(toks: seq<string>)
    ensures StrictParse(toks).None? <==>
      exists m :: 0 <= m < |toks| && m < MaxArgs - 1 && toks[m] == ">"
        && (forall k :: 0 <= k < m ==> toks[k] != ">")
        && (m == 0 || m + 1 == |toks| || m + 2 < |toks|)
  {
    if StrictParse(toks).None? {
      var m := FirstRedirect(toks);
      assert 0 <= m < |toks| && m < MaxArgs - 1 && toks[m] == ">";
    } else {
      forall m | 0 <= m < |toks| && m < MaxArgs - 1 && toks[m] == ">" && (forall k :: 0 <= k < m ==> toks[k] != ">")
        ensures !(m == 0 || m + 1 == |toks| || m + 2 < |toks|)
      {
        FirstRedirectAt(toks, m);
      }
    }
  }

  /** A `>` at `m` among the scanned tokens that is first, last, or followed by more than a file name. */
  lemma StrictParseRejectsAt(toks: seq<string>, m: nat)
    requires m < |toks| && m < MaxArgs - 1 && toks[m] == ">"
    requires forall k :: 0 <= k < m ==> toks[k] != ">"
    requires m == 0 || m + 1 == |toks| || m + 2 < |toks|
    ensures StrictParse(toks) == None
  {
    FirstRedirectAt(toks, m);
  }

  /** A `>` at `m`, after at least one argument, followed by exactly one file name. */
  lemma StrictParseRedirect(toks: seq<string>, m: nat)
    requires 0 < m < MaxArgs - 1 && |toks| == m + 2 && toks[m] == ">"
    requires forall k :: 0 <= k < m ==> toks[k] != ">"
    ensures StrictParse(toks) == Some(Command(toks[..m], Some(toks[m + 1])))
  {
    FirstRedirectAt(toks, m);
  }

  /** Once MAX_ARGS - 1 arguments without `>` are scanned, the rest is ignored. */
  lemma StrictParseFull(toks: seq<string>)
    requires |toks| >= MaxArgs - 1
    requires forall k :: 0 <= k < MaxArgs - 1 ==> toks[k] != ">"
    ensures StrictParse(toks) == Some(Command(toks[..MaxArgs - 1], None))
  {
  }

  /**
   * `parse_command`: scans the tokens with a `strtok` cursor while fewer than
   * MAX_ARGS - 1 arguments are stored, fills `args` in place and terminates it
   * with NULL (`None`); returns the argument count, or -1 on a malformed
   * redirection.
   */
  method ParseCommand(input: string, args: array<Option<string>>) returns (n: int, outputFile: Option<string>)
    requires args.Length == MaxArgs
    modifies args
    ensures match StrictParse(Tokens(input, Blanks))
      case None => n == -1
      case Some(c) =>
        && n == |c.args| && outputFile == c.target && args[n] == None
        && forall k :: 0 <= k < n ==> args[k] == Some(c.args[k])
  {
    n, outputFile := ScanArguments(input, args);
    if n != -1 {
      args[n] := None;
    }
  }

  /** The scanning loop of `parse_command`, up to the terminating NULL. */
  method ScanArguments(input: string, args: array<Option<string>>) returns (n: int, outputFile: Option<string>)
    requires args.Length == MaxArgs
    modifies args
    ensures match StrictParse(Tokens(input, Blanks))
      case None => n == -1
      case Some(c) =>
        && n == |c.args| && outputFile == c.target
        && forall k :: 0 <= k < n ==> args[k] == Some(c.args[k])
  {
    ghost var T := Tokens(input, Blanks);
    n, outputFile := 0, None;
    var redirectionFound := false;
    var found, start, stop, pos := FirstToken(input, Blanks);
    ghost var t := 0;
    while found && n < MaxArgs - 1
      invariant AtToken(input, Blanks, T, t, found, start, stop, pos)
      invariant 0 <= n <= t
      invariant n < MaxArgs
      invariant forall k :: 0 <= k < n ==> T[k] != ">"
      invariant forall k :: 0 <= k < n ==> args[k] == Some(T[k])
      invariant !redirectionFound ==> t == n && outputFile == None
      invariant redirectionFound ==> 0 < n < MaxArgs - 1 && t == n + 2 && T[n] == ">" && outputFile == Some(T[n + 1])
      decreases |T| - t
    {
      var token := input[start..stop];
      assert token == T[t];
      if token == ">" {
        if redirectionFound || n == 0 {
          StrictParseRejectsAt(T, n);
          return -1, outputFile;
        }
        redirectionFound := true;
        found, start, stop, pos := FollowingToken(input, Blanks, T, t, start, stop, pos);
        t := t + 1;
        if !found {
          StrictParseRejectsAt(T, n);
          return -1, outputFile;
        }
        outputFile := Some(input[start..stop]);
      } else if redirectionFound {
        StrictParseRejectsAt(T, n);
        return -1, outputFile;
      } else {
        args[n] := Some(token);
        n := n + 1;
      }
      found, start, stop, pos := FollowingToken(input, Blanks, T, t, start, stop, pos);
      t := t + 1;
    }
    if redirectionFound {
      StrictParseRedirect(T, n);
    } else if !found {
      StrictParsePlain(T);
    } else {
      StrictParseFull(T);
    }
  }

  /**
   * The batch member tokenizer of `execute_parallel_commands`, from the
   * arguments gathered so far: a `>` takes the next token as the output file
   * when there is one and no file was set yet, and fails otherwise; every
   * other token is an argument, also after the file name.
   */
  function LooseFrom(toks: seq<string>, args: seq<string>, target: Option<string>): (r: Option<Command>)
    requires |args| < MaxArgs
    ensures r.Some? ==> |args| <= |r.value.args| < MaxArgs && r.value.args[..|args|] == args
    ensures r.Some? ==> |r.value.args| <= |args| + |toks|
    decreases |toks|
  {
    if toks == [] || |args| >= MaxArgs - 1 then Some(Command(args, target))
    else if toks[0] == ">" then
      if |toks| >= 2 && target == None then LooseFrom(toks[2..], args, Some(toks[1])) else None
    else LooseFrom(toks[1..], args + [toks[0]], target)
  }

  function LooseParse(toks: seq<string>): (r: Option<Command>)
    ensures r.Some? ==> |r.value.args| < MaxArgs && |r.value.args| <= |toks|
  {
    LooseFrom(toks, [], None)
  }

  /** Plain tokens are appended to the arguments one by one. */
  lemma {:induction false} LoosePlain(toks: seq<string>, args: seq<string>, target: Option<string>, j: nat)
    requires j <= |toks| && |args| + j < MaxArgs
    requires forall k :: 0 <= k < j ==> toks[k] != ">"
    ensures LooseFrom(toks, args, target) == LooseFrom(toks[j..], args + toks[..j], target)
  {
    if j == 0 {
      assert toks[0..] == toks && args + toks[..0] == args;
    } else {
      LoosePlain(toks[1..], args + [toks[0]], target, j - 1);
      assert toks[1..][j - 1..] == toks[j..];
      assert args + [toks[0]] + toks[1..][..j - 1] == args + toks[..j];
    }
  }

  /** Whatever `parse_command` accepts, the batch tokenizer accepts with the same result. */
  lemma LooseExtendsStrict(toks: seq<string>)
    requires StrictParse(toks).Some?
    ensures LooseParse(toks) == StrictParse(toks)
  {
    var m := FirstRedirect(toks);
    if m >= MaxArgs - 1 {
      LoosePlain(toks, [], None, MaxArgs - 1);
      assert [] + toks[..MaxArgs - 1] == toks[..MaxArgs - 1];
    } else if m == |toks| {
      LoosePlain(toks, [], None, m);
      assert [] + toks[..m] == toks && toks[m..] == [];
    } else {
      LoosePlain(toks, [], None, m);
      var rest := toks[m..];
      assert [] + toks[..m] == toks[..m];
      assert rest[0] == ">" && rest[1] == toks[m + 1] && rest[2..] == [];
      assert LooseFrom(rest, toks[..m], None) == LooseFrom([], toks[..m], Some(toks[m + 1]));
    }
  }

  /**
   * The batch tokenizer accepts a `>` anywhere, even first, and keeps the
   * tokens after the file name as arguments.
   */
  lemma LooseRedirectAnywhere(pre: seq<string>, f: string, post: seq<string>)
    requires NoRedirect(pre) && NoRedirect(post)
    requires |pre| < MaxArgs - 1 && |pre| + |post| < MaxArgs
    ensures LooseParse(pre + [">", f] + post) == Some(Command(pre + post, Some(f)))
  {
    var toks := pre + [">", f] + post;
    LoosePlain(toks, [], None, |pre|);
    assert [] + toks[..|pre|] == pre;
    var rest := toks[|pre|..];
    assert rest[0] == ">" && rest[1] == f && rest[2..] == post;
    assert LooseFrom(rest, pre, None) == LooseFrom(post, pre, Some(f));
    LoosePlain(post, pre, Some(f), |post|);
    assert post[|post|..] == [] && pre + post[..|post|] == pre + post;
  }

  /** A second `>` among the scanned tokens rejects the member. */
  lemma LooseSecondRedirect(pre: seq<string>, f: string, mid: seq<string>, post: seq<string>)
    requires NoRedirect(pre) && NoRedirect(mid)
    requires |pre| + |mid| < MaxArgs - 1
    ensures LooseParse(pre + [">", f] + mid + [">"] + post).None?
  {
    var toks := pre + [">", f] + mid + [">"] + post;
    LoosePlain(toks, [], None, |pre|);
    assert [] + toks[..|pre|] == pre;
    var after := toks[|pre|..];
    assert after[0] == ">" && after[1] == f;
    var rest := after[2..];
    assert rest == mid + [">"] + post;
    assert LooseFrom(after, pre, None) == LooseFrom(rest, pre, Some(f));
    LoosePlain(rest, pre, Some(f), |mid|);
    var last := rest[|mid|..];
    assert last == [">"] + post;
    assert last[0] == ">" && last != [];
  }

  /** A `>` with no token after it rejects the member. */
  lemma LooseDanglingRedirect(pre: seq<string>)
    requires NoRedirect(pre) && |pre| < MaxArgs - 1
    ensures LooseParse(pre + [">"]).None?
  {
    var toks := pre + [">"];
    LoosePlain(toks, [], None, |pre|);
    assert [] + toks[..|pre|] == pre && toks[|pre|..] == [">"];
  }

  /** One step of the batch tokenizer at token `t`, unfolded. */
  lemma LooseStep(T: seq<string>, t: nat, acc: seq<string>, target: Option<string>)
    requires t < |T| && |acc| < MaxArgs - 1
    ensures T[t] == ">" ==> LooseFrom(T[t..], acc, target) == (if t + 1 < |T| && target == None then LooseFrom(T[t + 2..], acc, Some(T[t + 1])) else None)
    ensures T[t] != ">" ==> LooseFrom(T[t..], acc, target) == LooseFrom(T[t + 1..], acc + [T[t]], target)
  {
    assert T[t..][1..] == T[t + 1..];
    if t + 1 < |T| {
      assert T[t..][2..] == T[t + 2..];
    }
  }

  /**
   * The inline tokenizer of `execute_parallel_commands` (one batch member):
   * fills `args` in place, NULL-terminated; returns the argument count, or -1
   * when the member's redirection is malformed.
   */
  method ParseMember(input: string, args: array<Option<string>>) returns (n: int, outputFile: Option<string>)
    requires args.Length == MaxArgs
    modifies args
    ensures match LooseParse(Tokens(input, Blanks))
      case None => n == -1
      case Some(c) =>
        && n == |c.args| && outputFile == c.target && args[n] == None
        && forall k :: 0 <= k < n ==> args[k] == Some(c.args[k])
  {
    ghost var T := Tokens(input, Blanks);
    ghost var acc: seq<string> := [];
    n, outputFile := 0, None;
    var found, start, stop, pos := FirstToken(input, Blanks);
    ghost var t := 0;
    while found && n < MaxArgs - 1
      invariant AtToken(input, Blanks, T, t, found, start, stop, pos)
      invariant 0 <= n < MaxArgs && |acc| == n
      invariant forall k :: 0 <= k < n ==> args[k] == Some(acc[k])
      invariant LooseFrom(T[t..], acc, outputFile) == LooseParse(T)
      decreases |T| - t
    {
      var token := input[start..stop];
      assert token == T[t];
      LooseStep(T, t, acc, outputFile);
      if token == ">" {
        found, start, stop, pos := FollowingToken(input, Blanks, T, t, start, stop, pos);
        t := t + 1;
        if found && outputFile == None {
          outputFile := Some(input[start..stop]);
        } else {
          return -1, outputFile;
        }
      } else {
        args[n] := Some(token);
        acc := acc + [token];
        n := n + 1;
      }
      found, start, stop, pos := FollowingToken(input, Blanks, T, t, start, stop, pos);
      t := t + 1;
    }
    assert !found ==> T[t..] == [];
    args[n] := None;
  }

  /** Trim every piece and drop the ones that come out empty. */
  function NonEmptyTrimmed(ts: seq<string>): seq<string>
  {
    if ts == [] then []
    else (if Trimmed(ts[0]) == [] then [] else [Trimmed(ts[0])]) + NonEmptyTrimmed(ts[1..])
  }

  lemma NonEmptyTrimmedStep(T: seq<string>, t: nat)
    requires t < |T|
    ensures NonEmptyTrimmed(T[t..]) ==
      (if Trimmed(T[t]) == [] then [] else [Trimmed(T[t])]) + NonEmptyTrimmed(T[t + 1..])
  {
    assert T[t..][1..] == T[t + 1..];
  }

  /** The commands of one line: trimmed `&`-separated pieces, empty ones dropped, at most MAX_ARGS. */
  function Pieces(line: string): (r: seq<string>)
    ensures |r| <= MaxArgs
  {
    var all := NonEmptyTrimmed(Tokens(line, Separators));
    if |all| <= MaxArgs then all else all[..MaxArgs]
  }

  lemma {:induction false} NonEmptyTrimmedWellFormed(ts: seq<string>)
    requires forall i :: 0 <= i < |ts| ==> IsWord(ts[i], Separators)
    ensures forall i :: 0 <= i < |NonEmptyTrimmed(ts)| ==>
      var p := NonEmptyTrimmed(ts)[i];
      p != [] && Trimmed(p) == p && IsWord(p, Separators)
  {
    if ts != [] {
      NonEmptyTrimmedWellFormed(ts[1..]);
      var p := Trimmed(ts[0]);
      TrimmedIsSlice(ts[0]);
      TrimmedIdempotent(ts[0]);
    }
  }

  /** Every piece is non-empty, already trimmed and free of `&`. */
  lemma PiecesWellFormed(line: string)
    ensures forall i :: 0 <= i < |Pieces(line)| ==>
      var p := Pieces(line)[i];
      p != [] && Trimmed(p) == p && IsWord(p, Separators)
  {
    TokensAreWords(line, Separators);
    NonEmptyTrimmedWellFormed(Tokens(line, Separators));
  }

  /** A line of separators and whitespace only yields no command (and no error). */
  lemma {:induction false} PiecesOfBlankLine(line: string)
    requires forall k :: 0 <= k < |line| ==> line[k] == '&' || IsSpace(line[k])
    ensures Pieces(line) == []
    decreases |line|
  {
    if line == [] {
    } else if line[0] in Separators {
      PiecesOfBlankLine(line[1..]);
    } else {
      var n := RunLength(line, Separators);
      TrimmedEmptyIff(line[..n]);
      PiecesOfBlankLine(line[n..]);
    }
  }

  /** Consecutive separators give the same pieces as a single one. */
  lemma RepeatedSeparator(a: string, b: string)
    ensures Pieces(a + "&&" + b) == Pieces(a + "&" + b)
  {
    RepeatedDelimiter(a, '&', b, Separators);
    assert a + "&&" + b == a + ['&', '&'] + b;
    assert a + "&" + b == a + ['&'] + b;
  }

  /** Two non-blank pieces around one `&` are the two trimmed pieces, in order. */
  lemma PiecesOfTwo(a: string, b: string)
    requires !AllSpace(a) && !AllSpace(b)
    requires forall k :: 0 <= k < |a| ==> a[k] != '&'
    requires forall k :: 0 <= k < |b| ==> b[k] != '&'
    ensures Pieces(a + "&" + b) == [Trimmed(a), Trimmed(b)]
  {
    assert a + "&" + b == a + ['&'] + b;
    TokensSplit(a, '&', b, Separators);
    TokensOfWord(a, Separators);
    TokensOfWord(b, Separators);
    TrimmedEmptyIff(a);
    TrimmedEmptyIff(b);
    assert Tokens(a + ['&'] + b, Separators) == [a, b];
    assert [a, b][1..] == [b];
    assert NonEmptyTrimmed([b]) == [Trimmed(b)];
    assert NonEmptyTrimmed([a, b]) == [Trimmed(a)] + NonEmptyTrimmed([b]);
  }

  /** `trim` of one piece, and whether `is_empty_or_whitespace` lets it through. */
  method TrimPiece(token: string) returns (keep: bool, trimmed: string)
    ensures trimmed == Trimmed(token)
    ensures keep <==> Trimmed(token) != []
  {
    var lo, hi := Trim(token);
    trimmed := token[lo..hi];
    var blank := IsEmptyOrWhitespace(trimmed);
    TrimmedIdempotent(token);
    TrimmedEmptyIff(trimmed);
    keep := !blank;
  }

  /**
   * The `strtok_r` loop of `main` over the trimmed line: each `&`-separated
   * piece is trimmed and kept unless it is empty or whitespace, until
   * MAX_ARGS pieces are collected.
   */
  method SplitParallel(line: string) returns (pieces: seq<string>)
    ensures pieces == Pieces(line)
  {
    ghost var T := Tokens(line, Separators);
    pieces := [];
    var found, start, stop, pos := FirstToken(line, Separators);
    ghost var t := 0;
    while found && |pieces| < MaxArgs
      invariant AtToken(line, Separators, T, t, found, start, stop, pos)
      invariant |pieces| <= MaxArgs
      invariant NonEmptyTrimmed(T) == pieces + NonEmptyTrimmed(T[t..])
      decreases |T| - t
    {
      assert line[start..stop] == T[t];
      var keep, trimmed := TrimPiece(line[start..stop]);
      NonEmptyTrimmedStep(T, t);
      ghost var rest := NonEmptyTrimmed(T[t + 1..]);
      if keep {
        assert NonEmptyTrimmed(T[t..]) == [trimmed] + rest;
        AppendAssoc(pieces, [trimmed], rest);
        pieces := pieces + [trimmed];
      } else {
        assert NonEmptyTrimmed(T[t..]) == rest;
      }
      found, start, stop, pos := FollowingToken(line, Separators, T, t, start, stop, pos);
      t := t + 1;
    }
    if !found {
      assert T[t..] == [] && NonEmptyTrimmed(T[t..]) == [];
      assert NonEmptyTrimmed(T) == pieces;
    } else {
      assert NonEmptyTrimmed(T)[..MaxArgs] == pieces;
    }
  }
}
