/**
 * The inline name cleaner of src/streamlit.py: keeps the characters that are
 * alphanumeric, space, `_` or `-`, joins them, and strips surrounding whitespace
 * (Python's `str.strip()` with no argument).
 */
module CleanName {

  /** The comprehension's filter: `c.isalnum() or c in (' ', '_', '-')`. */
  predicate Allowed(isAlnum: char -> bool, c: char)
  {
    isAlnum(c) || c == ' ' || c == '_' || c == '-'
  }

  /** Python's `str.isspace` for one character: the code points Python treats as whitespace. */
  predicate IsSpace(c: char)
  {
    var n := c as int;
    (0x09 <= n <= 0x0D) || (0x1C <= n <= 0x20) || n == 0x85 || n == 0xA0 || n == 0x1680
    || (0x2000 <= n <= 0x200A) || n == 0x2028 || n == 0x2029 || n == 0x202F || n == 0x205F
    || n == 0x3000
  }

  /** The comprehension joined into a string. */
  function FilterAllowed(isAlnum: char -> bool, s: string): string
  {
    if s == [] then []
    else (if Allowed(isAlnum, s[0]) then [s[0]] else []) + FilterAllowed(isAlnum, s[1..])
  }

  /** Python's `s.lstrip()`. */
  function StripLeft(s: string): string
  {
    if s != [] && IsSpace(s[0]) then StripLeft(s[1..]) else s
  }

  /** Python's `s.rstrip()`. */
  function StripRight(s: string): string
  {
    if s != [] && IsSpace(s[|s| - 1]) then StripRight(s[..|s| - 1]) else s
  }

  /** The cleaned name: `"".join([...]).strip()`. */
  function Cleaned(isAlnum: char -> bool, s: string): string
  {
    StripRight(StripLeft(FilterAllowed(isAlnum, s)))
  }

  /** `a` can be obtained from `b` by deleting characters. */
  predicate IsSubsequence(a: string, b: string)
    decreases |b|
  {
    a == [] || (b != [] && (IsSubsequence(a, b[1..]) || (a[0] == b[0] && IsSubsequence(a[1..], b[1..]))))
  }

  // ---------------------------------------------------------------------------
  // Helper facts

  lemma {:induction false} FilterAllowedFacts(isAlnum: char -> bool, s: string)
    ensures forall i :: 0 <= i < |FilterAllowed(isAlnum, s)| ==> Allowed(isAlnum, FilterAllowed(isAlnum, s)[i])
    ensures IsSubsequence(FilterAllowed(isAlnum, s), s)
    decreases |s|
  {
    if s != [] {
      FilterAllowedFacts(isAlnum, s[1..]);
      var f := FilterAllowed(isAlnum, s[1..]);
      if Allowed(isAlnum, s[0]) {
        var r := [s[0]] + f;
        assert r == FilterAllowed(isAlnum, s);
        assert r[1..] == f && r[0] == s[0];
        assert IsSubsequence(r, s);
      } else {
        assert f == FilterAllowed(isAlnum, s);
      }
    }
  }

  lemma {:induction false} FilterAllowedFixed(isAlnum: char -> bool, s: string)
    requires forall i :: 0 <= i < |s| ==> Allowed(isAlnum, s[i])
    ensures FilterAllowed(isAlnum, s) == s
    decreases |s|
  {
    if s != [] {
      FilterAllowedFixed(isAlnum, s[1..]);
    }
  }

  lemma {:induction false} SubsequenceDropFirst(a: string, b: string)
    requires a != [] && IsSubsequence(a, b)
    ensures IsSubsequence(a[1..], b)
    decreases |b|
  {
    if IsSubsequence(a, b[1..]) {
      SubsequenceDropFirst(a, b[1..]);
    }
  }

  lemma {:induction false} SubsequenceDropLast(a: string, b: string)
    requires a != [] && IsSubsequence(a, b)
    ensures IsSubsequence(a[..|a| - 1], b)
    decreases |b|
  {
    if IsSubsequence(a, b[1..]) {
      SubsequenceDropLast(a, b[1..]);
    } else if |a| > 1 {
      SubsequenceDropLast(a[1..], b[1..]);
      assert a[..|a| - 1][1..] == a[1..][..|a[1..]| - 1];
    }
  }

  lemma {:induction false} StripLeftSlice(s: string) returns (k: nat)
    ensures k <= |s| && StripLeft(s) == s[k..]
    ensures StripLeft(s) != [] ==> !IsSpace(StripLeft(s)[0])
    decreases |s|
  {
    if s != [] && IsSpace(s[0]) {
      var k' := StripLeftSlice(s[1..]);
      k := k' + 1;
      assert s[1..][k'..] == s[k..];
    } else {
      k := 0;
    }
  }

  lemma {:induction false} StripLeftSubsequence(s: string, b: string)
    requires IsSubsequence(s, b)
    ensures IsSubsequence(StripLeft(s), b)
    decreases |s|
  {
    if s != [] && IsSpace(s[0]) {
      SubsequenceDropFirst(s, b);
      StripLeftSubsequence(s[1..], b);
    }
  }

  lemma {:induction false} StripRightSlice(s: string) returns (k: nat)
    ensures k <= |s| && StripRight(s) == s[..k]
    ensures StripRight(s) != [] ==> !IsSpace(StripRight(s)[|StripRight(s)| - 1])
    decreases |s|
  {
    if s != [] && IsSpace(s[|s| - 1]) {
      k := StripRightSlice(s[..|s| - 1]);
      assert s[..|s| - 1][..k] == s[..k];
    } else {
      k := |s|;
    }
  }

  lemma {:induction false} StripRightSubsequence(s: string, b: string)
    requires IsSubsequence(s, b)
    ensures IsSubsequence(StripRight(s), b)
    decreases |s|
  {
    if s != [] && IsSpace(s[|s| - 1]) {
      SubsequenceDropLast(s, b);
      StripRightSubsequence(s[..|s| - 1], b);
    }
  }

  /** The cleaner cuts a slice out of the filtered string. */
  lemma CleanedSlice(isAlnum: char -> bool, s: string) returns (i: nat, j: nat)
    ensures var f := FilterAllowed(isAlnum, s); i <= j <= |f| && Cleaned(isAlnum, s) == f[i..j]
    ensures IsSubsequence(Cleaned(isAlnum, s), s)
    ensures var r := Cleaned(isAlnum, s); r != [] ==> !IsSpace(r[0]) && !IsSpace(r[|r| - 1])
  {
    var f := FilterAllowed(isAlnum, s);
    FilterAllowedFacts(isAlnum, s);
    i := StripLeftSlice(f);
    StripLeftSubsequence(f, s);
    var k := StripRightSlice(f[i..]);
    StripRightSubsequence(f[i..], s);
    j := i + k;
    assert f[i..][..k] == f[i..j];
    var r := Cleaned(isAlnum, s);
    if r != [] {
      assert r[0] == StripLeft(f)[0];
    }
  }

  // ---------------------------------------------------------------------------
  // What the cleaner promises

  /** The cleaned name holds only alphanumerics, space, `_` and `-`. */
  lemma CleanedAlphabet(isAlnum: char -> bool, s: string)
    ensures forall k :: 0 <= k < |Cleaned(isAlnum, s)| ==> Allowed(isAlnum, Cleaned(isAlnum, s)[k])
  {
    var f := FilterAllowed(isAlnum, s);
    FilterAllowedFacts(isAlnum, s);
    var i, j := CleanedSlice(isAlnum, s);
    forall k | 0 <= k < |Cleaned(isAlnum, s)|
      ensures Allowed(isAlnum, Cleaned(isAlnum, s)[k])
    {
      assert Cleaned(isAlnum, s)[k] == f[i + k];
    }
  }

  /**
   * The cleaned name is a subsequence of the input and has no whitespace (in particular
   * no space) at either end.
   */
  lemma CleanedShape(isAlnum: char -> bool, s: string)
    ensures IsSubsequence(Cleaned(isAlnum, s), s)
    ensures var r := Cleaned(isAlnum, s); r != [] ==> !IsSpace(r[0]) && !IsSpace(r[|r| - 1])
    ensures var r := Cleaned(isAlnum, s); r != [] ==> r[0] != ' ' && r[|r| - 1] != ' '
  {
    var _, _ := CleanedSlice(isAlnum, s);
  }

  /** Cleaning twice equals cleaning once. */
  lemma CleanedIdempotent(isAlnum: char -> bool, s: string)
    ensures Cleaned(isAlnum, Cleaned(isAlnum, s)) == Cleaned(isAlnum, s)
  {
    var r := Cleaned(isAlnum, s);
    CleanedAlphabet(isAlnum, s);
    CleanedShape(isAlnum, s);
    FilterAllowedFixed(isAlnum, r);
  }
}
