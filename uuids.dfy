/**
 * UUIDs as Python's `uuid` module renders and parses them: `str(u)` gives the
 * canonical lower-case 8-4-4-4-12 form, `UUID(s)` accepts that form and a few
 * variants (braces, a `urn:uuid:` prefix, upper-case digits, hyphens anywhere).
 */
module Uuids {
  import opened Wrappers
  import opened Text

  /** One hexadecimal digit. */
  type Nibble = n: int | 0 <= n < 16

  /**
   * A UUID as its 32 hexadecimal digits, most significant first. Python
   * compares UUIDs by their 128-bit integer, which is equality of the digits.
   */
  type Uuid = s: seq<Nibble> | |s| == 32 witness seq(32, _ => 0)

  /** The lower-case digit for `n`, as `str(u)` writes it. */
  function HexChar(n: Nibble): char {
    if n < 10 then ('0' as int + n) as char else ('a' as int + n - 10) as char
  }

  /** The lower-case digits of `s`. */
  function Hex(s: seq<Nibble>): string
    decreases |s|
  {
    if s == [] then [] else [HexChar(s[0])] + Hex(s[1..])
  }

  /** Python's `str(u)`: five groups of 8, 4, 4, 4 and 12 digits joined by `-`. */
  function Format(u: Uuid): (r: string)
    ensures |r| == 36
    ensures r[8] == '-' && r[13] == '-' && r[18] == '-' && r[23] == '-'
  {
    HexEachChar(u[..8]);
    HexEachChar(u[8..12]);
    HexEachChar(u[12..16]);
    HexEachChar(u[16..20]);
    HexEachChar(u[20..]);
    Hex(u[..8]) + "-" + Hex(u[8..12]) + "-" + Hex(u[12..16]) + "-" + Hex(u[16..20]) + "-" + Hex(u[20..])
  }

  /** The value of a hexadecimal digit in either case, or `None` for any other character. */
  function HexValue(c: char): (r: Option<Nibble>)
    ensures r.Some? <==> ('0' <= c <= '9' || 'a' <= c <= 'f' || 'A' <= c <= 'F')
  {
    if '0' <= c <= '9' then Some(c as int - '0' as int)
    else if 'a' <= c <= 'f' then Some(c as int - 'a' as int + 10)
    else if 'A' <= c <= 'F' then Some(c as int - 'A' as int + 10)
    else None
  }

  /** The digits of a string made only of hexadecimal digits; `None` as soon as one is not. */
  function Unhex(s: string): (r: Option<seq<Nibble>>)
    ensures r.Some? <==> forall k :: 0 <= k < |s| ==> HexValue(s[k]).Some?
    ensures r.Some? ==> |r.value| == |s|
    decreases |s|
  {
    if s == [] then Some([])
    else match (HexValue(s[0]), Unhex(s[1..]))
      case (Some(d), Some(ds)) => Some([d] + ds)
      case _ => None
  }

  /**
   * Python's `UUID(s)`: drop every `urn:` and `uuid:`, strip braces from both
   * ends, drop every hyphen, and read exactly 32 hexadecimal digits; `None`
   * stands for the `ValueError` it raises otherwise.
   */
  function Parse(s: string): (r: Option<Uuid>)
  {
    var h := Replace(Replace(s, "urn:", "", -1), "uuid:", "", -1);
    var digits := Replace(Strip(h, {'{', '}'}), "-", "", -1);
    if |digits| != 32 then None
    else match Unhex(digits)
      case Some(ds) => Some(ds)
      case None => None
  }

  /** Every character written for a UUID digit is a lower-case hexadecimal digit that reads back as that digit. */
  lemma HexCharReadsBack(n: Nibble)
    ensures '0' <= HexChar(n) <= '9' || 'a' <= HexChar(n) <= 'f'
    ensures HexValue(HexChar(n)) == Some(n)
  {
  }

  lemma {:induction false} HexEachChar(s: seq<Nibble>)
    ensures |Hex(s)| == |s|
    ensures forall k :: 0 <= k < |s| ==> Hex(s)[k] == HexChar(s[k])
    decreases |s|
  {
    if s != [] {
      HexEachChar(s[1..]);
    }
  }

  lemma {:induction false} HexConcat(a: seq<Nibble>, b: seq<Nibble>)
    ensures Hex(a + b) == Hex(a) + Hex(b)
    decreases |a|
  {
    if a == [] {
      assert a + b == b;
    } else {
      assert (a + b)[1..] == a[1..] + b;
      HexConcat(a[1..], b);
    }
  }

  /** Reading back the digits of `s` gives `s`. */
  lemma {:induction false} UnhexHex(s: seq<Nibble>)
    ensures Unhex(Hex(s)) == Some(s)
    decreases |s|
  {
    if s != [] {
      HexCharReadsBack(s[0]);
      UnhexHex(s[1..]);
      assert Hex(s) == [HexChar(s[0])] + Hex(s[1..]);
      assert Hex(s)[0] == HexChar(s[0]);
      assert Hex(s)[1..] == Hex(s[1..]);
      assert [s[0]] + s[1..] == s;
    }
  }

  /** No character of a digit string is `c` when `c` is not a lower-case hexadecimal digit. */
  lemma HexAvoids(s: seq<Nibble>, c: char)
    requires !('0' <= c <= '9' || 'a' <= c <= 'f')
    ensures forall k :: 0 <= k < |Hex(s)| ==> Hex(s)[k] != c
  {
    HexEachChar(s);
    forall k | 0 <= k < |Hex(s)| ensures Hex(s)[k] != c {
      HexCharReadsBack(s[k]);
      assert Hex(s)[k] == HexChar(s[k]);
    }
  }

  /** Removing hyphens from a digit string leaves it as it is. */
  lemma HexHasNoHyphen(s: seq<Nibble>)
    ensures Replace(Hex(s), "-", "", -1) == Hex(s)
  {
    HexAvoids(s, '-');
    AbsentFirstCharNotContained(Hex(s), "-");
    ReplaceAbsent(Hex(s), "-", "", -1);
  }

  /** Removing hyphens from a group of digits, a hyphen and the rest drops that hyphen. */
  lemma DropHyphenAfter(x: seq<Nibble>, rest: string)
    ensures Replace(Hex(x) + "-" + rest, "-", "", -1) == Hex(x) + Replace(rest, "-", "", -1)
  {
    HexAvoids(x, '-');
    assert Hex(x) + "-" + rest == Hex(x) + ("-" + rest);
    ReplaceKeepsPrefix(Hex(x), "-" + rest, "-", "", -1);
    assert ("-" + rest)[1..] == rest;
  }

  /** A group of digits followed by a hyphen and text whose hyphens remove to the digits `y` removes to the digits of both. */
  lemma DropOneHyphen(x: seq<Nibble>, y: seq<Nibble>, rest: string)
    requires Replace(rest, "-", "", -1) == Hex(y)
    ensures Replace(Hex(x) + "-" + rest, "-", "", -1) == Hex(x + y)
  {
    DropHyphenAfter(x, rest);
    HexConcat(x, y);
  }

  /** A slice from `i` is the slice from `i` to `j` followed by the slice from `j`. */
  lemma SliceSplit(u: seq<Nibble>, i: nat, j: nat)
    requires i <= j <= |u|
    ensures u[i..j] + u[j..] == u[i..]
  {
  }

  /** Removing the hyphens of `str(u)` leaves the 32 digits of `u`. */
  lemma FormatWithoutHyphens(u: Uuid)
    ensures Replace(Format(u), "-", "", -1) == Hex(u)
  {
    var a, b, c, d, e := u[..8], u[8..12], u[12..16], u[16..20], u[20..];
    var r3 := Hex(d) + "-" + Hex(e);
    var r2 := Hex(c) + "-" + r3;
    var r1 := Hex(b) + "-" + r2;
    assert Format(u) == Hex(a) + "-" + r1;
    HexHasNoHyphen(e);
    DropOneHyphen(d, e, Hex(e));
    SliceSplit(u, 16, 20);
    DropOneHyphen(c, u[16..], r3);
    SliceSplit(u, 12, 16);
    DropOneHyphen(b, u[12..], r2);
    SliceSplit(u, 8, 12);
    DropOneHyphen(a, u[8..], r1);
    SliceSplit(u, 0, 8);
    assert u[0..8] == a && u[0..] == u;
  }

  /** `UUID(str(u)) == u`: the canonical text of a UUID parses back to the same UUID. */
  lemma ParseFormat(u: Uuid)
    ensures Parse(Format(u)) == Some(u)
  {
    var f := Format(u);
    HexEachChar(u[..8]);
    HexEachChar(u[20..]);
    forall k | 0 <= k < |f| ensures f[k] != 'u' && f[k] != '{' && f[k] != '}' {
      var a, b, c, d, e := u[..8], u[8..12], u[12..16], u[16..20], u[20..];
      HexAvoids(a, 'u'); HexAvoids(b, 'u'); HexAvoids(c, 'u'); HexAvoids(d, 'u'); HexAvoids(e, 'u');
      HexAvoids(a, '{'); HexAvoids(b, '{'); HexAvoids(c, '{'); HexAvoids(d, '{'); HexAvoids(e, '{');
      HexAvoids(a, '}'); HexAvoids(b, '}'); HexAvoids(c, '}'); HexAvoids(d, '}'); HexAvoids(e, '}');
    }
    AbsentFirstCharNotContained(f, "urn:");
    ReplaceAbsent(f, "urn:", "", -1);
    AbsentFirstCharNotContained(f, "uuid:");
    ReplaceAbsent(f, "uuid:", "", -1);
    StripUnchanged(f, {'{', '}'});
    FormatWithoutHyphens(u);
    HexEachChar(u);
    UnhexHex(u);
  }
}
