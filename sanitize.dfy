/**
 * `sanitize_name` of src/main.py: turns a user-chosen song name into a file-name token.
 * Every character that is not alphanumeric, `-` or `_` becomes `_`; a loop then replaces
 * `"__"` by `"_"` until no `"__"` is left; finally `_` is stripped from both ends.
 *
 * Python's `str.isalnum` is Unicode-aware; it is taken here as a parameter `isAlnum`,
 * so every property below holds whatever that predicate is.
 */
module Sanitize {

  /** The characters the comprehension keeps unchanged: alphanumerics, `-` and `_`. */
  predicate Keeps(isAlnum: char -> bool, c: char)
  {
    isAlnum(c) || c == '-' || c == '_'
  }

  /** One step of the comprehension: keep the character or turn it into `_`. */
  function MapChar(isAlnum: char -> bool, c: char): char
  {
    if Keeps(isAlnum, c) then c else '_'
  }

  /** The list comprehension joined into a string. */
  function MapChars(isAlnum: char -> bool, s: string): (r: string)
    ensures |r| == |s|
    ensures forall i :: 0 <= i < |r| ==> Keeps(isAlnum, r[i])
    ensures forall i :: 0 <= i < |s| ==> r[i] == (if Keeps(isAlnum, s[i]) then s[i] else '_')
  {
    if s == [] then [] else [MapChar(isAlnum, s[0])] + MapChars(isAlnum, s[1..])
  }

  /** Python's `"__" in s`. */
  predicate ContainsDouble(s: string)
  {
    exists i :: 0 <= i < |s| - 1 && s[i] == '_' && s[i + 1] == '_'
  }

  /**
   * Python's `s.replace("__", "_")`: scans left to right and replaces each
   * non-overlapping `"__"` by `"_"` (so `"___"` becomes `"__"`).
   */
  function ReplacePairs(s: string): string
  {
    if |s| < 2 then s
    else if s[0] == '_' && s[1] == '_' then "_" + ReplacePairs(s[2..])
    else [s[0]] + ReplacePairs(s[1..])
  }

  /** Every maximal run of `_` shortened to a single `_`: what the `while` loop reaches. */
  function Collapse(s: string): string
  {
    if |s| < 2 then s
    else if s[0] == '_' && s[1] == '_' then Collapse(s[1..])
    else [s[0]] + Collapse(s[1..])
  }

  /** Python's `s.lstrip("_")`. */
  function TrimLeft(s: string): string
  {
    if s != [] && s[0] == '_' then TrimLeft(s[1..]) else s
  }

  /** Python's `s.rstrip("_")`. */
  function TrimRight(s: string): string
  {
    if s != [] && s[|s| - 1] == '_' then TrimRight(s[..|s| - 1]) else s
  }

  /** Python's `s.strip("_")`. */
  function Strip(s: string): string
  {
    TrimRight(TrimLeft(s))
  }

  /** The value `sanitize_name(s)` returns. */
  function Sanitized(isAlnum: char -> bool, s: string): string
  {
    Strip(Collapse(MapChars(isAlnum, s)))
  }

  /** `s` with every `_` removed. */
  function DropUnderscores(s: string): string
  {
    if s == [] then [] else (if s[0] == '_' then [] else [s[0]]) + DropUnderscores(s[1..])
  }

  /** The characters of `s` that are alphanumeric or `-`, in their order. */
  function KeptChars(isAlnum: char -> bool, s: string): string
  {
    if s == [] then []
    else (if s[0] != '_' && Keeps(isAlnum, s[0]) then [s[0]] else []) + KeptChars(isAlnum, s[1..])
  }

  /**
   * `sanitize_name`: the comprehension, then the `while "__" in clean` loop, then the strip.
   * The loop terminates because each replacement shortens the string, and what it reaches
   * is `Collapse` of the mapped name, so the result is `Sanitized`.
   */
  method SanitizeName(isAlnum: char -> bool, name: string) returns (r: string)
    ensures r == Sanitized(isAlnum, name)
    ensures forall i :: 0 <= i < |r| ==> Keeps(isAlnum, r[i])
    ensures !ContainsDouble(r)
  {
    var clean := MapChars(isAlnum, name);
    while ContainsDouble(clean)
      invariant Collapse(clean) == Collapse(MapChars(isAlnum, name))
      decreases |clean|
    {
      ReplacePairsShrinks(clean);
      CollapseReplacePairs(clean);
      clean := ReplacePairs(clean);
    }
    CollapseFixed(clean);
    r := Strip(clean);
    SanitizedAlphabet(isAlnum, name);
    SanitizedShape(isAlnum, name);
  }

  // ---------------------------------------------------------------------------
  // The replace loop

  lemma {:induction false} ReplacePairsHead(s: string)
    requires s != []
    ensures ReplacePairs(s) != [] && ReplacePairs(s)[0] == s[0]
  {
  }

  /** `replace` never lengthens the string and strictly shortens it when `"__"` occurs. */
  lemma {:induction false} ReplacePairsShrinks(s: string)
    ensures |ReplacePairs(s)| <= |s|
    ensures ContainsDouble(s) ==> |ReplacePairs(s)| < |s|
    decreases |s|
  {
    if |s| < 2 {
    } else if s[0] == '_' && s[1] == '_' {
      ReplacePairsShrinks(s[2..]);
    } else {
      ReplacePairsShrinks(s[1..]);
      if ContainsDouble(s) {
        var i :| 0 <= i < |s| - 1 && s[i] == '_' && s[i + 1] == '_';
        assert i != 0;
        assert s[1..][i - 1] == '_' && s[1..][i] == '_';
      }
    }
  }

  lemma {:induction false} CollapseHead(s: string)
    requires s != []
    ensures Collapse(s) != [] && Collapse(s)[0] == s[0]
    decreases |s|
  {
    if |s| >= 2 && s[0] == '_' && s[1] == '_' {
      CollapseHead(s[1..]);
    }
  }

  lemma CollapseUnderscore(x: string)
    ensures Collapse("_" + x) == if x != [] && x[0] == '_' then Collapse(x) else "_" + Collapse(x)
  {
    var s := "_" + x;
    if x != [] {
      assert s[1..] == x;
    }
  }

  lemma CollapseOther(c: char, x: string)
    requires c != '_'
    ensures Collapse([c] + x) == [c] + Collapse(x)
  {
    var s := [c] + x;
    if x != [] {
      assert s[1..] == x;
    }
  }

  /** One pass of `replace("__", "_")` does not change the collapsed form. */
  lemma {:induction false} CollapseReplacePairs(s: string)
    ensures Collapse(ReplacePairs(s)) == Collapse(s)
    decreases |s|
  {
    if |s| < 2 {
    } else if s[0] == '_' && s[1] == '_' {
      var t := s[2..];
      CollapseReplacePairs(t);
      if t != [] {
        ReplacePairsHead(t);
      }
      CollapseUnderscore(ReplacePairs(t));
      CollapseUnderscore(t);
      assert s[1..] == "_" + t;
    } else {
      var t := s[1..];
      CollapseReplacePairs(t);
      ReplacePairsHead(t);
      assert ReplacePairs(s) == [s[0]] + ReplacePairs(t);
      if s[0] != '_' {
        CollapseOther(s[0], ReplacePairs(t));
      } else {
        CollapseUnderscore(ReplacePairs(t));
        assert s == "_" + t;
        CollapseUnderscore(t);
      }
    }
  }

  /** A string without `"__"` is its own collapsed form: the loop exit. */
  lemma {:induction false} CollapseFixed(s: string)
    requires !ContainsDouble(s)
    ensures Collapse(s) == s
    decreases |s|
  {
    if |s| >= 2 {
      assert !(s[0] == '_' && s[1] == '_');
      var t := s[1..];
      forall i | 0 <= i < |t| - 1
        ensures !(t[i] == '_' && t[i + 1] == '_')
      {
        assert t[i] == s[i + 1] && t[i + 1] == s[i + 2];
      }
      CollapseFixed(t);
      assert s == [s[0]] + t;
    }
  }

  /** The collapsed form contains no `"__"`. */
  lemma {:induction false} CollapseNoDouble(s: string)
    ensures !ContainsDouble(Collapse(s))
    decreases |s|
  {
    if |s| < 2 {
    } else if s[0] == '_' && s[1] == '_' {
      CollapseNoDouble(s[1..]);
    } else {
      var t := s[1..];
      CollapseNoDouble(t);
      CollapseHead(t);
      var c := Collapse(s);
      assert c == [s[0]] + Collapse(t);
      forall i | 0 <= i < |c| - 1
        ensures !(c[i] == '_' && c[i + 1] == '_')
      {
        if i == 0 {
          assert c[1] == t[0] == s[1];
        } else {
          assert c[i] == Collapse(t)[i - 1] && c[i + 1] == Collapse(t)[i];
        }
      }
    }
  }

  /** Collapsing keeps every character of the collapsed form drawn from the input. */
  lemma {:induction false} CollapseChars(s: string)
    ensures |Collapse(s)| <= |s|
    ensures forall i :: 0 <= i < |Collapse(s)| ==> Collapse(s)[i] in s
    decreases |s|
  {
    if |s| >= 2 {
      CollapseChars(s[1..]);
      forall i | 0 <= i < |Collapse(s[1..])|
        ensures Collapse(s[1..])[i] in s
      {
        assert Collapse(s[1..])[i] in s[1..];
      }
    }
  }

  lemma DropUnderscoresAppend(a: string, b: string)
    ensures DropUnderscores(a + b) == DropUnderscores(a) + DropUnderscores(b)
  {
    if a == [] {
      assert a + b == b;
    } else {
      assert (a + b)[0] == a[0];
      assert (a + b)[1..] == a[1..] + b;
      DropUnderscoresAppend(a[1..], b);
    }
  }

  /** Collapsing removes only underscores. */
  lemma {:induction false} CollapseDrop(s: string)
    ensures DropUnderscores(Collapse(s)) == DropUnderscores(s)
    decreases |s|
  {
    if |s| < 2 {
    } else if s[0] == '_' && s[1] == '_' {
      CollapseDrop(s[1..]);
    } else {
      CollapseDrop(s[1..]);
      DropUnderscoresAppend([s[0]], Collapse(s[1..]));
    }
  }

  // ---------------------------------------------------------------------------
  // The strip

  lemma {:induction false} TrimLeftSlice(s: string) returns (k: nat)
    ensures k <= |s| && TrimLeft(s) == s[k..]
    ensures TrimLeft(s) != [] ==> TrimLeft(s)[0] != '_'
    decreases |s|
  {
    if s != [] && s[0] == '_' {
      var k' := TrimLeftSlice(s[1..]);
      k := k' + 1;
      assert s[1..][k'..] == s[k..];
    } else {
      k := 0;
    }
  }

  lemma {:induction false} TrimLeftDrop(s: string)
    ensures DropUnderscores(TrimLeft(s)) == DropUnderscores(s)
    decreases |s|
  {
    if s != [] && s[0] == '_' {
      TrimLeftDrop(s[1..]);
    }
  }

  lemma {:induction false} TrimRightSlice(s: string) returns (k: nat)
    ensures k <= |s| && TrimRight(s) == s[..k]
    ensures TrimRight(s) != [] ==> TrimRight(s)[|TrimRight(s)| - 1] != '_'
    decreases |s|
  {
    if s != [] && s[|s| - 1] == '_' {
      var p := s[..|s| - 1];
      k := TrimRightSlice(p);
      assert p[..k] == s[..k];
    } else {
      k := |s|;
    }
  }

  lemma {:induction false} TrimRightDrop(s: string)
    ensures DropUnderscores(TrimRight(s)) == DropUnderscores(s)
    decreases |s|
  {
    if s != [] && s[|s| - 1] == '_' {
      var p := s[..|s| - 1];
      TrimRightDrop(p);
      assert s == p + [s[|s| - 1]];
      DropUnderscoresAppend(p, [s[|s| - 1]]);
    }
  }

  /** `strip("_")` cuts a slice out of its argument and leaves no `_` at either end. */
  lemma StripSlice(s: string) returns (i: nat, j: nat)
    ensures i <= j <= |s| && Strip(s) == s[i..j]
    ensures Strip(s) != [] ==> Strip(s)[0] != '_' && Strip(s)[|Strip(s)| - 1] != '_'
    ensures DropUnderscores(Strip(s)) == DropUnderscores(s)
  {
    i := TrimLeftSlice(s);
    TrimLeftDrop(s);
    var k := TrimRightSlice(s[i..]);
    TrimRightDrop(s[i..]);
    j := i + k;
    assert s[i..][..k] == s[i..j];
    if Strip(s) != [] {
      assert Strip(s)[0] == s[i..][0];
    }
  }

  lemma StripFixed(s: string)
    requires s != [] ==> s[0] != '_' && s[|s| - 1] != '_'
    ensures Strip(s) == s
  {
  }

  lemma SliceNoDouble(s: string, i: int, j: int)
    requires 0 <= i <= j <= |s|
    requires !ContainsDouble(s)
    ensures !ContainsDouble(s[i..j])
  {
    forall k | 0 <= k < |s[i..j]| - 1
      ensures !(s[i..j][k] == '_' && s[i..j][k + 1] == '_')
    {
      assert s[i..j][k] == s[i + k] && s[i..j][k + 1] == s[i + k + 1];
    }
  }

  // ---------------------------------------------------------------------------
  // The comprehension

  lemma {:induction false} MapCharsDrop(isAlnum: char -> bool, s: string)
    ensures DropUnderscores(MapChars(isAlnum, s)) == KeptChars(isAlnum, s)
    decreases |s|
  {
    if s != [] {
      MapCharsDrop(isAlnum, s[1..]);
      DropUnderscoresAppend([MapChar(isAlnum, s[0])], MapChars(isAlnum, s[1..]));
    }
  }

  lemma {:induction false} MapCharsFixed(isAlnum: char -> bool, s: string)
    requires forall i :: 0 <= i < |s| ==> Keeps(isAlnum, s[i])
    ensures MapChars(isAlnum, s) == s
    decreases |s|
  {
    if s != [] {
      MapCharsFixed(isAlnum, s[1..]);
    }
  }

  lemma {:induction false} KeptCharsLength(isAlnum: char -> bool, s: string)
    ensures |KeptChars(isAlnum, s)| <= |s|
    decreases |s|
  {
    if s != [] {
      KeptCharsLength(isAlnum, s[1..]);
    }
  }

  // ---------------------------------------------------------------------------
  // What `sanitize_name` promises

  /** Every character of the result is alphanumeric, `-` or `_`. */
  lemma SanitizedAlphabet(isAlnum: char -> bool, s: string)
    ensures forall i :: 0 <= i < |Sanitized(isAlnum, s)| ==> Keeps(isAlnum, Sanitized(isAlnum, s)[i])
  {
    var m := MapChars(isAlnum, s);
    CollapseChars(m);
    var c := Collapse(m);
    var i, j := StripSlice(c);
    forall k | 0 <= k < |Strip(c)|
      ensures Keeps(isAlnum, Strip(c)[k])
    {
      assert Strip(c)[k] == c[i + k];
      var x := c[i + k];
      assert x in m;
    }
  }

  /** The result has no `"__"` and neither starts nor ends with `_`. */
  lemma SanitizedShape(isAlnum: char -> bool, s: string)
    ensures !ContainsDouble(Sanitized(isAlnum, s))
    ensures var r := Sanitized(isAlnum, s); r != [] ==> r[0] != '_' && r[|r| - 1] != '_'
  {
    var c := Collapse(MapChars(isAlnum, s));
    CollapseNoDouble(MapChars(isAlnum, s));
    var i, j := StripSlice(c);
    SliceNoDouble(c, i, j);
  }

  /**
   * Removing the underscores from the result leaves exactly the input's alphanumeric and
   * `-` characters, in their original order; the result is never longer than the input.
   */
  lemma SanitizedKeepsOrder(isAlnum: char -> bool, s: string)
    ensures DropUnderscores(Sanitized(isAlnum, s)) == KeptChars(isAlnum, s)
    ensures |Sanitized(isAlnum, s)| <= |s|
  {
    var m := MapChars(isAlnum, s);
    MapCharsDrop(isAlnum, s);
    CollapseDrop(m);
    CollapseChars(m);
    var _, _ := StripSlice(Collapse(m));
  }

  /** A name the sanitizer leaves alone: kept characters, no `__`, no `_` at either end. */
  predicate IsClean(isAlnum: char -> bool, s: string)
  {
    && (forall i :: 0 <= i < |s| ==> Keeps(isAlnum, s[i]))
    && !ContainsDouble(s)
    && (s != [] ==> s[0] != '_' && s[|s| - 1] != '_')
  }

  /** The names sanitizing leaves unchanged are exactly the clean ones. */
  lemma SanitizedFixedPoints(isAlnum: char -> bool, s: string)
    ensures Sanitized(isAlnum, s) == s <==> IsClean(isAlnum, s)
  {
    if IsClean(isAlnum, s) {
      MapCharsFixed(isAlnum, s);
      CollapseFixed(s);
      StripFixed(s);
    }
    if Sanitized(isAlnum, s) == s {
      SanitizedAlphabet(isAlnum, s);
      SanitizedShape(isAlnum, s);
    }
  }

  /** Sanitizing a sanitized name changes nothing. */
  lemma SanitizedIdempotent(isAlnum: char -> bool, s: string)
    ensures Sanitized(isAlnum, Sanitized(isAlnum, s)) == Sanitized(isAlnum, s)
  {
    SanitizedAlphabet(isAlnum, s);
    SanitizedShape(isAlnum, s);
    SanitizedFixedPoints(isAlnum, Sanitized(isAlnum, s));
  }

  /**
   * The result is empty exactly when the input has no alphanumeric or `-` character,
   * so a non-empty name made only of other characters sanitizes to `""`.
   */
  lemma SanitizedEmpty(isAlnum: char -> bool, s: string)
    ensures Sanitized(isAlnum, s) == "" <==> KeptChars(isAlnum, s) == ""
  {
    var r := Sanitized(isAlnum, s);
    SanitizedKeepsOrder(isAlnum, s);
    SanitizedShape(isAlnum, s);
    if r != "" {
      assert r == [r[0]] + r[1..];
      DropUnderscoresAppend([r[0]], r[1..]);
    }
  }
}
