/**
 * The Python string operations the service relies on, as recursive functions
 * on `seq<char>`: `startswith`, `in`, `replace`, `split(...)[0]`, `strip`
 * and `lower`. Case mapping is ASCII only; the whitespace set of `strip()`
 * is written out.
 */
module Text {

  /** Python's `s.startswith(p)`. */
  predicate StartsWith(s: string, p: string) {
    |p| <= |s| && s[..|p|] == p
  }

  /** `p` occurs in `s` at index `i`: the independent reading of `p in s`. */
  predicate OccursAt(s: string, p: string, i: int) {
    0 <= i && i + |p| <= |s| && s[i..i + |p|] == p
  }

  /** Python's substring test `p in s`, by recursion on `s`. */
  predicate Contains(s: string, p: string)
    decreases |s|
  {
    StartsWith(s, p) || (s != [] && Contains(s[1..], p))
  }

  /** The recursive substring test agrees with the positional one, both ways. */
  lemma {:induction false} ContainsIffOccurs(s: string, p: string)
    ensures Contains(s, p) <==> exists i :: OccursAt(s, p, i)
    decreases |s|
  {
    if StartsWith(s, p) {
      assert OccursAt(s, p, 0);
    } else if s != [] {
      ContainsIffOccurs(s[1..], p);
      if exists i :: OccursAt(s[1..], p, i) {
        var i :| OccursAt(s[1..], p, i);
        assert s[1..][i..i + |p|] == s[i + 1..i + 1 + |p|];
        assert OccursAt(s, p, i + 1);
      }
      if exists i :: OccursAt(s, p, i) {
        var i :| OccursAt(s, p, i);
        assert i != 0;
        assert s[1..][i - 1..i - 1 + |p|] == s[i..i + |p|];
        assert OccursAt(s[1..], p, i - 1);
      }
    }
  }

  /** A pattern at the start of `y` occurs in `x + y`. */
  lemma OccursInSuffix(x: string, y: string, p: string)
    requires StartsWith(y, p)
    ensures Contains(x + y, p)
  {
    assert (x + y)[|x|..|x| + |p|] == y[..|p|];
    assert OccursAt(x + y, p, |x|);
    ContainsIffOccurs(x + y, p);
  }

  /**
   * When `p` does not occur in `y` and `y`'s first character is not in `p`
   * after its first position, an occurrence of `p` in `x + y` lies wholly
   * inside `x`: none can start in `y` or straddle the join.
   */
  lemma ContainsWithinPrefix(x: string, y: string, p: string)
    requires p != [] && y != []
    requires !Contains(y, p)
    requires forall k :: 1 <= k < |p| ==> p[k] != y[0]
    ensures Contains(x + y, p) ==> Contains(x, p)
  {
    ContainsIffOccurs(x + y, p);
    ContainsIffOccurs(x, p);
    ContainsIffOccurs(y, p);
    if !Contains(x, p) {
      forall i ensures !OccursAt(x + y, p, i) {
        if i < 0 || i + |p| > |x + y| {
        } else if i + |p| <= |x| {
          assert (x + y)[i..i + |p|] == x[i..i + |p|];
          assert !OccursAt(x, p, i);
        } else if |x| <= i {
          assert (x + y)[i..i + |p|] == y[i - |x|..i - |x| + |p|];
          assert !OccursAt(y, p, i - |x|);
        } else {
          assert (x + y)[i..i + |p|][|x| - i] == y[0];
        }
      }
    }
  }

  /** A pattern whose first character never appears in `s` does not occur in `s`. */
  lemma {:induction false} AbsentFirstCharNotContained(s: string, p: string)
    requires p != []
    requires forall k :: 0 <= k < |s| ==> s[k] != p[0]
    ensures !Contains(s, p)
    decreases |s|
  {
    if s != [] {
      assert !StartsWith(s, p) by {
        if |p| <= |s| {
          assert s[..|p|][0] == s[0];
        }
      }
      AbsentFirstCharNotContained(s[1..], p);
    }
  }

  /**
   * Python's `s.replace(pat, repl, count)` for a non-empty `pat`: occurrences
   * are replaced left to right without overlap; a negative `count` (Python's
   * default, -1) replaces all of them, otherwise at most `count`.
   */
  function Replace(s: string, pat: string, repl: string, count: int): string
    requires pat != []
    decreases |s|
  {
    if s == [] || count == 0 then s
    else if StartsWith(s, pat) then
      repl + Replace(s[|pat|..], pat, repl, if count < 0 then count else count - 1)
    else [s[0]] + Replace(s[1..], pat, repl, count)
  }

  /** Replacing a pattern that does not occur leaves the string as it is. */
  lemma {:induction false} ReplaceAbsent(s: string, pat: string, repl: string, count: int)
    requires pat != []
    requires !Contains(s, pat)
    ensures Replace(s, pat, repl, count) == s
    decreases |s|
  {
    if s != [] && count != 0 {
      ReplaceAbsent(s[1..], pat, repl, count);
    }
  }

  /** With a count of one, a string that starts with the pattern has exactly that prefix replaced. */
  lemma ReplaceOnceAtStart(s: string, pat: string, repl: string)
    requires pat != [] && StartsWith(s, pat)
    ensures Replace(s, pat, repl, 1) == repl + s[|pat|..]
  {
  }

  /**
   * A prefix `p` none of whose characters starts the pattern is passed over
   * unchanged: the replacements all happen after it.
   */
  lemma {:induction false} ReplaceKeepsPrefix(p: string, s: string, pat: string, repl: string, count: int)
    requires pat != []
    requires forall k :: 0 <= k < |p| ==> p[k] != pat[0]
    ensures Replace(p + s, pat, repl, count) == p + Replace(s, pat, repl, count)
    decreases |p|
  {
    if p == [] {
      assert p + s == s;
    } else if count != 0 {
      assert (p + s)[0] == p[0];
      assert !StartsWith(p + s, pat);
      assert (p + s)[1..] == p[1..] + s;
      ReplaceKeepsPrefix(p[1..], s, pat, repl, count);
      assert Replace(p + s, pat, repl, count) == [p[0]] + (p[1..] + Replace(s, pat, repl, count));
      assert [p[0]] + (p[1..] + Replace(s, pat, repl, count)) == p + Replace(s, pat, repl, count);
    }
  }

  /** Python's `s.split(sep)[0]` for a non-empty `sep`: the text before the first occurrence of `sep`. */
  function SplitHead(s: string, sep: string): string
    requires sep != []
    decreases |s|
  {
    if s == [] || StartsWith(s, sep) then [] else [s[0]] + SplitHead(s[1..], sep)
  }

  /**
   * `SplitHead` cuts `s` before the first occurrence of `sep`: the result is a
   * prefix of `s` that does not contain `sep`, followed in `s` by `sep` when
   * `sep` occurs, and the whole of `s` when it does not.
   */
  lemma {:induction false} SplitHeadCutsAtFirst(s: string, sep: string)
    requires sep != []
    ensures StartsWith(s, SplitHead(s, sep))
    ensures !Contains(SplitHead(s, sep), sep)
    ensures Contains(s, sep) ==> StartsWith(s[|SplitHead(s, sep)|..], sep)
    ensures !Contains(s, sep) ==> SplitHead(s, sep) == s
    decreases |s|
  {
    var r := SplitHead(s, sep);
    if s == [] || StartsWith(s, sep) {
      assert r == [];
      assert !Contains(r, sep);
      assert s[|r|..] == s;
    } else {
      SplitHeadCutsAtFirst(s[1..], sep);
      var r' := SplitHead(s[1..], sep);
      assert r == [s[0]] + r';
      assert r == s[..|r|];
      assert r[1..] == r';
      assert s[|r|..] == s[1..][|r'|..];
      if !Contains(s, sep) {
        assert r' == s[1..];
      }
    }
  }

  /** A prefix `p` none of whose characters starts the separator survives the split unchanged. */
  lemma {:induction false} SplitHeadKeepsPrefix(p: string, s: string, sep: string)
    requires sep != []
    requires forall k :: 0 <= k < |p| ==> p[k] != sep[0]
    ensures SplitHead(p + s, sep) == p + SplitHead(s, sep)
    decreases |p|
  {
    if p == [] {
      assert p + s == s;
    } else {
      assert (p + s)[0] == p[0];
      assert !StartsWith(p + s, sep);
      assert (p + s)[1..] == p[1..] + s;
      SplitHeadKeepsPrefix(p[1..], s, sep);
      assert SplitHead(p + s, sep) == [p[0]] + (p[1..] + SplitHead(s, sep));
      assert [p[0]] + (p[1..] + SplitHead(s, sep)) == p + SplitHead(s, sep);
    }
  }

  /** Python's `s.lstrip(chars)`. */
  function StripLeft(s: string, cs: set<char>): string
    decreases |s|
  {
    if s != [] && s[0] in cs then StripLeft(s[1..], cs) else s
  }

  /** Python's `s.rstrip(chars)`. */
  function StripRight(s: string, cs: set<char>): string
    decreases |s|
  {
    if s != [] && s[|s| - 1] in cs then StripRight(s[..|s| - 1], cs) else s
  }

  /** Python's `s.strip(chars)`. */
  function Strip(s: string, cs: set<char>): string {
    StripRight(StripLeft(s, cs), cs)
  }

  /** The characters for which Python's `str.isspace()` holds: what `strip()` removes. */
  const Whitespace: set<char> :=
    {'\t', '\n', '\U{000B}', '\U{000C}', '\r', '\U{001C}', '\U{001D}', '\U{001E}', '\U{001F}', ' ',
     '\U{0085}', '\U{00A0}', '\U{1680}', '\U{2000}', '\U{2001}', '\U{2002}', '\U{2003}', '\U{2004}',
     '\U{2005}', '\U{2006}', '\U{2007}', '\U{2008}', '\U{2009}', '\U{200A}', '\U{2028}', '\U{2029}',
     '\U{202F}', '\U{205F}', '\U{3000}'}

  /** Python's `s.strip()` with no argument. */
  function Trim(s: string): string {
    Strip(s, Whitespace)
  }

  lemma {:induction false} StripLeftSlice(s: string, cs: set<char>) returns (i: nat)
    ensures i <= |s| && StripLeft(s, cs) == s[i..]
    ensures forall k :: 0 <= k < i ==> s[k] in cs
    ensures i < |s| ==> s[i] !in cs
    decreases |s|
  {
    if s != [] && s[0] in cs {
      var i' := StripLeftSlice(s[1..], cs);
      i := i' + 1;
      assert s[1..][i'..] == s[i..];
    } else {
      i := 0;
    }
  }

  lemma {:induction false} StripRightSlice(s: string, cs: set<char>) returns (j: nat)
    ensures j <= |s| && StripRight(s, cs) == s[..j]
    ensures forall k :: j <= k < |s| ==> s[k] in cs
    ensures 0 < j ==> s[j - 1] !in cs
    decreases |s|
  {
    if s != [] && s[|s| - 1] in cs {
      j := StripRightSlice(s[..|s| - 1], cs);
      assert s[..|s| - 1][..j] == s[..j];
    } else {
      j := |s|;
    }
  }

  /**
   * `Strip` removes a run of characters from `cs` at each end and nothing
   * else: the result is the slice `s[i..j]`, everything outside it is in `cs`,
   * and the result neither starts nor ends with a character from `cs`.
   */
  lemma StripSlice(s: string, cs: set<char>) returns (i: nat, j: nat)
    ensures i <= j <= |s| && Strip(s, cs) == s[i..j]
    ensures forall k :: 0 <= k < i ==> s[k] in cs
    ensures forall k :: j <= k < |s| ==> s[k] in cs
    ensures i < j ==> s[i] !in cs && s[j - 1] !in cs
  {
    i := StripLeftSlice(s, cs);
    var j' := StripRightSlice(s[i..], cs);
    j := i + j';
    assert s[i..][..j'] == s[i..j];
    forall k | j <= k < |s| ensures s[k] in cs {
      assert s[i..][k - i] == s[k];
    }
    if i < j {
      assert s[i..][j' - 1] == s[j - 1];
    }
  }

  /** Stripping yields the empty string exactly when every character of `s` is in `cs`. */
  lemma StripEmptyIff(s: string, cs: set<char>)
    ensures Strip(s, cs) == [] <==> forall k :: 0 <= k < |s| ==> s[k] in cs
  {
    var i, j := StripSlice(s, cs);
    if Strip(s, cs) == [] {
      assert i == j;
      forall k | 0 <= k < |s| ensures s[k] in cs {
        if k >= i {
          assert k >= j;
        }
      }
    }
  }

  /** A string that neither starts nor ends with a character of `cs` is left as it is. */
  lemma StripUnchanged(s: string, cs: set<char>)
    requires s == [] || (s[0] !in cs && s[|s| - 1] !in cs)
    ensures Strip(s, cs) == s
  {
  }

  /** ASCII lower-casing of one character, standing for Python's `str.lower()`. */
  function LowerChar(c: char): char {
    if 'A' <= c <= 'Z' then (c as int + 32) as char else c
  }

  /** Python's `s.lower()`, restricted to ASCII letters. */
  function Lower(s: string): string
    decreases |s|
  {
    if s == [] then [] else [LowerChar(s[0])] + Lower(s[1..])
  }

  /** `s` has no upper-case ASCII letter. */
  predicate IsLower(s: string) {
    forall k :: 0 <= k < |s| ==> 'A' > s[k] || s[k] > 'Z'
  }

  /** Lower-casing keeps the length, maps every character and leaves no upper-case letter. */
  lemma {:induction false} LowerMapsEachChar(s: string)
    ensures |Lower(s)| == |s|
    ensures forall k :: 0 <= k < |s| ==> Lower(s)[k] == LowerChar(s[k])
    ensures IsLower(Lower(s))
    decreases |s|
  {
    if s != [] {
      LowerMapsEachChar(s[1..]);
      assert forall k :: 1 <= k < |s| ==> Lower(s)[k] == Lower(s[1..])[k - 1];
    }
  }

  /** A string with no upper-case letter is its own lower-case form. */
  lemma {:induction false} LowerOfLower(s: string)
    requires IsLower(s)
    ensures Lower(s) == s
    decreases |s|
  {
    if s != [] {
      LowerOfLower(s[1..]);
    }
  }

  /** Lower-casing is idempotent, so a stored lower-cased email is found again by a lower-cased lookup. */
  lemma LowerIdempotent(s: string)
    ensures Lower(Lower(s)) == Lower(s)
  {
    LowerMapsEachChar(s);
    LowerOfLower(Lower(s));
  }
}
