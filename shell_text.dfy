/**
 * Whitespace handling of the shell (CustomShellProject.c): the C-locale
 * `isspace` class, `trim` and `is_empty_or_whitespace`.
 *
 * Each `char` stands for one byte of the C string, and a line holds no NUL
 * byte, so the end of the sequence is the C string's terminator.
 */
module ShellText {

  /** `isspace` in the "C" locale: space, and '\t' '\n' '\v' '\f' '\r'. */
  predicate IsSpace(c: char)
  {
    c == ' ' || '\t' <= c <= '\r'
  }

  predicate AllSpace(s: string)
  {
    forall i :: 0 <= i < |s| ==> IsSpace(s[i])
  }

  function TrimLeft(s: string): string
  {
    if s != [] && IsSpace(s[0]) then TrimLeft(s[1..]) else s
  }

  function TrimRight(s: string): string
  {
    if s != [] && IsSpace(s[|s| - 1]) then TrimRight(s[..|s| - 1]) else s
  }

  /** Reference definition of trimming: drop leading, then trailing, whitespace. */
  function Trimmed(s: string): string
  {
    TrimRight(TrimLeft(s))
  }

  /** What `s[lo..hi]` must satisfy to be the trimmed form of `s`. */
  ghost predicate IsTrimSlice(s: string, lo: int, hi: int)
  {
    && 0 <= lo <= hi <= |s|
    && (forall k :: 0 <= k < lo ==> IsSpace(s[k]))
    && (forall k :: hi <= k < |s| ==> IsSpace(s[k]))
    && (lo < hi ==> !IsSpace(s[lo]) && !IsSpace(s[hi - 1]))
  }

  lemma {:induction false} TrimLeftShape(s: string)
    ensures |TrimLeft(s)| <= |s|
    ensures TrimLeft(s) == s[|s| - |TrimLeft(s)|..]
    ensures forall k :: 0 <= k < |s| - |TrimLeft(s)| ==> IsSpace(s[k])
    ensures TrimLeft(s) != [] ==> !IsSpace(TrimLeft(s)[0])
  {
    if s != [] && IsSpace(s[0]) {
      var t := s[1..];
      TrimLeftShape(t);
      assert TrimLeft(s) == TrimLeft(t);
      assert t[|t| - |TrimLeft(t)|..] == s[|s| - |TrimLeft(s)|..];
      forall k | 0 <= k < |s| - |TrimLeft(s)|
        ensures IsSpace(s[k])
      {
        if k > 0 {
          assert s[k] == t[k - 1];
        }
      }
    }
  }

  lemma {:induction false} TrimRightShape(s: string)
    ensures |TrimRight(s)| <= |s|
    ensures TrimRight(s) == s[..|TrimRight(s)|]
    ensures forall k :: |TrimRight(s)| <= k < |s| ==> IsSpace(s[k])
    ensures TrimRight(s) != [] ==> !IsSpace(TrimRight(s)[|TrimRight(s)| - 1])
  {
    if s != [] && IsSpace(s[|s| - 1]) {
      var t := s[..|s| - 1];
      TrimRightShape(t);
      assert TrimRight(s) == TrimRight(t);
      assert t[..|TrimRight(t)|] == s[..|TrimRight(s)|];
      forall k | |TrimRight(s)| <= k < |s|
        ensures IsSpace(s[k])
      {
        if k < |s| - 1 {
          assert s[k] == t[k];
        }
      }
    }
  }

  /**
   * `trim` returns a contiguous slice of its input: everything cut off on
   * either side is whitespace, and a non-empty result starts and ends with a
   * non-whitespace character.
   */
  lemma TrimmedIsSlice(s: string)
    ensures IsTrimSlice(s, |s| - |TrimLeft(s)|, |s| - |TrimLeft(s)| + |Trimmed(s)|)
    ensures Trimmed(s) == s[|s| - |TrimLeft(s)|..|s| - |TrimLeft(s)| + |Trimmed(s)|]
  {
    var l := TrimLeft(s);
    TrimLeftShape(s);
    TrimRightShape(l);
    var lo := |s| - |l|;
    var hi := lo + |Trimmed(s)|;
    assert Trimmed(s) == l[..|Trimmed(s)|];
    assert l[..|Trimmed(s)|] == s[lo..hi];
    forall k | hi <= k < |s| ensures IsSpace(s[k]) {
      assert s[k] == l[k - lo];
    }
    if lo < hi {
      assert s[lo] == l[0];
      assert s[hi - 1] == Trimmed(s)[|Trimmed(s)| - 1];
    }
  }

  lemma {:induction false} TrimLeftAt(s: string, lo: nat)
    requires lo <= |s| && (lo < |s| ==> !IsSpace(s[lo]))
    requires forall k :: 0 <= k < lo ==> IsSpace(s[k])
    ensures TrimLeft(s) == s[lo..]
  {
    if lo > 0 {
      TrimLeftAt(s[1..], lo - 1);
    }
  }

  lemma {:induction false} TrimRightAt(s: string, hi: nat)
    requires hi <= |s| && (0 < hi ==> !IsSpace(s[hi - 1]))
    requires forall k :: hi <= k < |s| ==> IsSpace(s[k])
    ensures TrimRight(s) == s[..hi]
  {
    if hi < |s| {
      TrimRightAt(s[..|s| - 1], hi);
    }
  }

  /** The slice conditions determine the trimmed string uniquely. */
  lemma TrimmedUnique(s: string, lo: int, hi: int)
    requires IsTrimSlice(s, lo, hi)
    ensures Trimmed(s) == s[lo..hi]
  {
    if lo < hi {
      TrimLeftAt(s, lo);
      TrimRightAt(s[lo..], hi - lo);
    } else {
      TrimLeftAt(s, |s|);
    }
  }

  /** `trim` is idempotent. */
  lemma TrimmedIdempotent(s: string)
    ensures Trimmed(Trimmed(s)) == Trimmed(s)
  {
    var t := Trimmed(s);
    TrimmedIsSlice(s);
    TrimmedUnique(t, 0, |t|);
  }

  /** The trimmed string is empty exactly when `is_empty_or_whitespace` holds. */
  lemma TrimmedEmptyIff(s: string)
    ensures Trimmed(s) == [] <==> AllSpace(s)
  {
    TrimmedIsSlice(s);
    var lo := |s| - |TrimLeft(s)|;
    if Trimmed(s) == [] {
      forall k | 0 <= k < |s| ensures IsSpace(s[k]) {
        if k >= lo { assert k >= lo + |Trimmed(s)|; }
      }
    } else {
      assert !IsSpace(s[lo]);
    }
  }

  /**
   * `trim`: skips leading whitespace, and on a non-empty rest walks an end
   * pointer back over trailing whitespace; the NUL it writes after `end` makes
   * the result the slice `s[lo..hi]`.
   */
  method Trim(s: string) returns (lo: nat, hi: nat)
    ensures lo <= hi <= |s|
    ensures s[lo..hi] == Trimmed(s)
  {
    lo := 0;
    while lo < |s| && IsSpace(s[lo])
      invariant lo <= |s|
      invariant forall k :: 0 <= k < lo ==> IsSpace(s[k])
    {
      lo := lo + 1;
    }
    if lo == |s| {
      hi := lo;
      TrimmedUnique(s, lo, hi);
      return;
    }
    var end := |s| - 1;
    while end > lo && IsSpace(s[end])
      invariant lo <= end < |s|
      invariant forall k :: end < k < |s| ==> IsSpace(s[k])
    {
      end := end - 1;
    }
    hi := end + 1;
    TrimmedUnique(s, lo, hi);
  }

  /** `is_empty_or_whitespace`: true iff every character is whitespace. */
  method IsEmptyOrWhitespace(s: string) returns (b: bool)
    ensures b <==> AllSpace(s)
  {
    var i := 0;
    while i < |s|
      invariant i <= |s|
      invariant forall k :: 0 <= k < i ==> IsSpace(s[k])
    {
      if !IsSpace(s[i]) {
        return false;
      }
      i := i + 1;
    }
    return true;
  }
}
