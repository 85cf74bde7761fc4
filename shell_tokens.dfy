/**
 * The `strtok`/`strtok_r` scanning the shell relies on (CustomShellProject.c):
 * a token is a maximal non-empty run of characters outside the delimiter set,
 * and successive calls hand the tokens out left to right.
 */
module Tokenizer {

  /** Length of the run of non-delimiters at the start of `s`. */
  function RunLength(s: string, delims: set<char>): (n: nat)
    ensures n <= |s|
    ensures forall k :: 0 <= k < n ==> s[k] !in delims
    ensures n < |s| ==> s[n] in delims
  {
    if s == [] || s[0] in delims then 0 else 1 + RunLength(s[1..], delims)
  }

  /** The tokens `strtok` returns on `s`, in order. */
  function Tokens(s: string, delims: set<char>): seq<string>
    decreases |s|
  {
    if s == [] then []
    else if s[0] in delims then Tokens(s[1..], delims)
    else
      var n := RunLength(s, delims);
      [s[..n]] + Tokens(s[n..], delims)
  }

  /** The characters of `s` that are not delimiters, in order. */
  function Kept(s: string, delims: set<char>): string
  {
    if s == [] then [] else (if s[0] in delims then [] else [s[0]]) + Kept(s[1..], delims)
  }

  function Concat(ts: seq<string>): string
  {
    if ts == [] then [] else ts[0] + Concat(ts[1..])
  }

  /** `ts` joined with one delimiter character `d` between neighbours. */
  function JoinWith(ts: seq<string>, d: char): string
  {
    if ts == [] then [] else if |ts| == 1 then ts[0] else ts[0] + [d] + JoinWith(ts[1..], d)
  }

  /** Predicate for a string `strtok` hands out whole: non-empty and delimiter-free. */
  predicate IsWord(w: string, delims: set<char>)
  {
    w != [] && forall k :: 0 <= k < |w| ==> w[k] !in delims
  }

  /** A run of non-delimiters is determined by where it stops. */
  lemma RunLengthAt(s: string, delims: set<char>, n: nat)
    requires n <= |s| && (n < |s| ==> s[n] in delims)
    requires forall k :: 0 <= k < n ==> s[k] !in delims
    ensures RunLength(s, delims) == n
  {
  }

  /** Every token is non-empty and contains no delimiter. */
  lemma {:induction false} TokensAreWords(s: string, delims: set<char>)
    ensures forall i :: 0 <= i < |Tokens(s, delims)| ==> IsWord(Tokens(s, delims)[i], delims)
    decreases |s|
  {
    if s == [] {
    } else if s[0] in delims {
      TokensAreWords(s[1..], delims);
    } else {
      TokensAreWords(s[RunLength(s, delims)..], delims);
    }
  }

  lemma {:induction false} KeptAppend(a: string, b: string, delims: set<char>)
    ensures Kept(a + b, delims) == Kept(a, delims) + Kept(b, delims)
  {
    if a == [] {
      assert a + b == b;
    } else {
      assert (a + b)[1..] == a[1..] + b;
      KeptAppend(a[1..], b, delims);
    }
  }

  lemma {:induction false} KeptOfWord(w: string, delims: set<char>)
    requires forall k :: 0 <= k < |w| ==> w[k] !in delims
    ensures Kept(w, delims) == w
  {
    if w != [] {
      KeptOfWord(w[1..], delims);
    }
  }

  /** Tokenizing loses exactly the delimiters: the tokens concatenate to the rest of the text. */
  lemma {:induction false} TokensKeepText(s: string, delims: set<char>)
    ensures Concat(Tokens(s, delims)) == Kept(s, delims)
    decreases |s|
  {
    if s == [] {
    } else if s[0] in delims {
      TokensKeepText(s[1..], delims);
    } else {
      var n := RunLength(s, delims);
      TokensKeepText(s[n..], delims);
      assert s == s[..n] + s[n..];
      KeptAppend(s[..n], s[n..], delims);
      KeptOfWord(s[..n], delims);
    }
  }

  /** A delimiter separates the tokens on its left from those on its right. */
  lemma {:induction false} TokensSplit(a: string, d: char, b: string, delims: set<char>)
    requires d in delims
    ensures Tokens(a + [d] + b, delims) == Tokens(a, delims) + Tokens(b, delims)
    decreases |a|
  {
    var s := a + [d] + b;
    if a == [] {
      assert s[1..] == b;
    } else if a[0] in delims {
      assert s[1..] == a[1..] + [d] + b;
      TokensSplit(a[1..], d, b, delims);
    } else {
      var n := RunLength(a, delims);
      RunLengthAt(s, delims, n);
      assert s[..n] == a[..n];
      assert s[n..] == a[n..] + [d] + b;
      TokensSplit(a[n..], d, b, delims);
    }
  }

  lemma TokensOfWord(w: string, delims: set<char>)
    requires IsWord(w, delims)
    ensures Tokens(w, delims) == [w]
  {
    RunLengthAt(w, delims, |w|);
    assert w[..|w|] == w && w[|w|..] == [];
  }

  /** Round trip: joining words with a delimiter and tokenizing gives the words back. */
  lemma {:induction false} TokensOfJoin(ts: seq<string>, d: char, delims: set<char>)
    requires d in delims
    requires forall i :: 0 <= i < |ts| ==> IsWord(ts[i], delims)
    ensures Tokens(JoinWith(ts, d), delims) == ts
  {
    if ts == [] {
    } else if |ts| == 1 {
      TokensOfWord(ts[0], delims);
    } else {
      TokensOfJoin(ts[1..], d, delims);
      TokensSplit(ts[0], d, JoinWith(ts[1..], d), delims);
      TokensOfWord(ts[0], delims);
    }
  }

  /** Two delimiters in a row produce no empty token. */
  lemma RepeatedDelimiter(a: string, d: char, b: string, delims: set<char>)
    requires d in delims
    ensures Tokens(a + [d, d] + b, delims) == Tokens(a + [d] + b, delims)
  {
    assert a + [d, d] + b == a + [d] + ([d] + b);
    TokensSplit(a, d, [d] + b, delims);
    TokensSplit(a, d, b, delims);
    assert ([d] + b)[1..] == b;
  }

  /** Skipping one leading delimiter does not change the tokens. */
  lemma SkipDelimiter(s: string, i: nat, delims: set<char>)
    requires i < |s| && s[i] in delims
    ensures Tokens(s[i..], delims) == Tokens(s[i + 1..], delims)
  {
    assert s[i..][1..] == s[i + 1..];
  }

  /** The token at `start` ends at `stop`, and scanning resumes at `next`. */
  lemma TokenAt(s: string, start: nat, stop: nat, next: nat, delims: set<char>)
    requires start < stop <= |s|
    requires forall k :: start <= k < stop ==> s[k] !in delims
    requires stop < |s| ==> s[stop] in delims && next == stop + 1
    requires stop == |s| ==> next == stop
    ensures Tokens(s[start..], delims) == [s[start..stop]] + Tokens(s[next..], delims)
  {
    var t := s[start..];
    RunLengthAt(t, delims, stop - start);
    assert t[..stop - start] == s[start..stop];
    assert t[stop - start..] == s[stop..];
    if stop < |s| {
      SkipDelimiter(s, stop, delims);
    }
  }

  /**
   * One `strtok` call resuming at `pos`: skip delimiters, take the run up to
   * the next delimiter (`s[start..stop]`), and resume after that delimiter.
   * Finding no token means the rest of the text has none.
   */
  method NextToken(s: string, pos: nat, delims: set<char>) returns (found: bool, start: nat, stop: nat, next: nat)
    requires pos <= |s|
    ensures pos <= start <= stop <= next <= |s|
    ensures found ==> start < stop && Tokens(s[pos..], delims) == [s[start..stop]] + Tokens(s[next..], delims)
    ensures !found ==> Tokens(s[pos..], delims) == [] && next == |s|
  {
    start := pos;
    while start < |s| && s[start] in delims
      invariant pos <= start <= |s|
      invariant Tokens(s[pos..], delims) == Tokens(s[start..], delims)
    {
      SkipDelimiter(s, start, delims);
      start := start + 1;
    }
    if start == |s| {
      assert s[start..] == [];
      return false, start, start, start;
    }
    stop := start;
    while stop < |s| && s[stop] !in delims
      invariant start <= stop <= |s|
      invariant forall k :: start <= k < stop ==> s[k] !in delims
    {
      stop := stop + 1;
    }
    next := if stop < |s| then stop + 1 else stop;
    TokenAt(s, start, stop, next, delims);
    found := true;
  }

  /**
   * The state of a `strtok` scan that has handed out `t` tokens of `T`: when
   * a current token was found it is `T[t]` at `s[start..stop]` and scanning
   * resumes at `pos`; otherwise all of `T` has been handed out.
   */
  ghost predicate AtToken(s: string, delims: set<char>, T: seq<string>, t: nat, found: bool, start: nat, stop: nat, pos: nat)
  {
    && pos <= |s| && t <= |T|
    && (found ==> t < |T| && start <= stop <= |s| && s[start..stop] == T[t] && Tokens(s[pos..], delims) == T[t + 1..])
    && (!found ==> t == |T|)
  }

  lemma CursorStart(s: string, delims: set<char>, found: bool, start: nat, stop: nat, next: nat)
    requires start <= stop <= next <= |s|
    requires found ==> Tokens(s[0..], delims) == [s[start..stop]] + Tokens(s[next..], delims)
    requires !found ==> Tokens(s[0..], delims) == []
    ensures AtToken(s, delims, Tokens(s, delims), 0, found, start, stop, next)
  {
    assert s[0..] == s;
  }

  lemma CursorAdvance(s: string, delims: set<char>, T: seq<string>, t: nat, pos: nat, found: bool, start: nat, stop: nat, next: nat)
    requires pos <= |s| && t < |T| && Tokens(s[pos..], delims) == T[t + 1..]
    requires start <= stop <= next <= |s|
    requires found ==> Tokens(s[pos..], delims) == [s[start..stop]] + Tokens(s[next..], delims)
    requires !found ==> Tokens(s[pos..], delims) == []
    ensures AtToken(s, delims, T, t + 1, found, start, stop, next)
  {
    if found {
      assert T[t + 1..][1..] == T[t + 2..];
    }
  }

  /** The first `strtok` call on `s`: the scan now stands at the first token, if any. */
  method FirstToken(s: string, delims: set<char>) returns (found: bool, start: nat, stop: nat, next: nat)
    ensures AtToken(s, delims, Tokens(s, delims), 0, found, start, stop, next)
  {
    found, start, stop, next := NextToken(s, 0, delims);
    CursorStart(s, delims, found, start, stop, next);
  }

  /** A further `strtok` call, after the `t`-th token: the scan moves on to the next one, if any. */
  method FollowingToken(s: string, delims: set<char>, ghost T: seq<string>, ghost t: nat, ghost start0: nat, ghost stop0: nat, pos: nat)
    returns (found: bool, start: nat, stop: nat, next: nat)
    requires AtToken(s, delims, T, t, true, start0, stop0, pos)
    ensures AtToken(s, delims, T, t + 1, found, start, stop, next)
  {
    found, start, stop, next := NextToken(s, pos, delims);
    CursorAdvance(s, delims, T, t, pos, found, start, stop, next);
  }

  /** Joining introduces no character outside the words and the joiner. */
  lemma {:induction false} JoinWithAvoids(ts: seq<string>, d: char, bad: set<char>)
    requires d !in bad
    requires forall i, k :: 0 <= i < |ts| && 0 <= k < |ts[i]| ==> ts[i][k] !in bad
    ensures forall k :: 0 <= k < |JoinWith(ts, d)| ==> JoinWith(ts, d)[k] !in bad
  {
    if |ts| > 1 {
      JoinWithAvoids(ts[1..], d, bad);
      var rest := JoinWith(ts[1..], d);
      assert JoinWith(ts, d) == ts[0] + [d] + rest;
      forall k | 0 <= k < |JoinWith(ts, d)| ensures JoinWith(ts, d)[k] !in bad {
        if k < |ts[0]| {
          assert JoinWith(ts, d)[k] == ts[0][k];
        } else if k > |ts[0]| {
          assert JoinWith(ts, d)[k] == rest[k - |ts[0]| - 1];
        }
      }
    } else if |ts| == 1 {
      assert forall k :: 0 <= k < |ts[0]| ==> ts[0][k] !in bad;
    }
  }

  /** A join of non-empty words starts with the first word's first character and ends with the last word's last one. */
  lemma {:induction false} JoinWithEnds(ts: seq<string>, d: char)
    requires |ts| > 0 && forall i :: 0 <= i < |ts| ==> ts[i] != []
    ensures var j := JoinWith(ts, d);
      && j != [] && j[0] == ts[0][0]
      && j[|j| - 1] == ts[|ts| - 1][|ts[|ts| - 1]| - 1]
  {
    if |ts| > 1 {
      JoinWithEnds(ts[1..], d);
      assert ts[1..][|ts[1..]| - 1] == ts[|ts| - 1];
    }
  }
}
