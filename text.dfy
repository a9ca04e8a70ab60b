/**
 * The string primitives of .NET and JavaScript that the core relies on:
 * `char.IsWhiteSpace`, `string.IsNullOrWhiteSpace`, `string.Trim`,
 * `int.ToString()`, zero-padded date fields, ASCII case mapping and
 * `string.Join`.  A .NET `string` that may be null is never null where the
 * core uses it (every read goes through `?? string.Empty`), so strings are
 * plain `seq<char>` here.
 */
module Text {

  /** `char.IsWhiteSpace`: the Unicode White_Space characters, as .NET lists them. */
  predicate IsWhiteSpace(c: char) {
    var n := c as int;
    (0x09 <= n <= 0x0D) || n == 0x20 || n == 0x85 || n == 0xA0 || n == 0x1680
    || (0x2000 <= n <= 0x200A) || n == 0x2028 || n == 0x2029 || n == 0x202F
    || n == 0x205F || n == 0x3000
  }

  /** `string.IsNullOrWhiteSpace` (true of the empty string). */
  predicate IsNullOrWhiteSpace(s: string) {
    forall i :: 0 <= i < |s| ==> IsWhiteSpace(s[i])
  }

  /** `string.IsNullOrEmpty`. */
  predicate IsNullOrEmpty(s: string) {
    |s| == 0
  }

  /** Removes the leading white space: what is left is a suffix of `s`. */
  function TrimStart(s: string): (r: string)
    ensures |r| <= |s| && r == s[|s| - |r|..]
    ensures IsNullOrWhiteSpace(s[..|s| - |r|])
    ensures |r| > 0 ==> !IsWhiteSpace(r[0])
    decreases |s|
  {
    if |s| > 0 && IsWhiteSpace(s[0]) then
      var r := TrimStart(s[1..]);
      assert s[..|s| - |r|] == [s[0]] + s[1..][..|s| - 1 - |r|];
      r
    else
      s
  }

  /** Removes the trailing white space: what is left is a prefix of `s`. */
  function TrimEnd(s: string): (r: string)
    ensures |r| <= |s| && r == s[..|r|]
    ensures IsNullOrWhiteSpace(s[|r|..])
    ensures |r| == 0 ==> IsNullOrWhiteSpace(s)
    ensures |r| > 0 ==> !IsWhiteSpace(r[|r| - 1])
    decreases |s|
  {
    if |s| > 0 && IsWhiteSpace(s[|s| - 1]) then
      var r := TrimEnd(s[..|s| - 1]);
      assert s[|r|..] == s[..|s| - 1][|r|..] + [s[|s| - 1]];
      assert s[0..] == s;
      r
    else
      s
  }

  /** `r` occurs in `s` at `i` with nothing but white space before and after it. */
  predicate PaddedAt(s: string, r: string, i: int) {
    && 0 <= i <= |s| - |r| && r == s[i..i + |r|]
    && IsNullOrWhiteSpace(s[..i]) && IsNullOrWhiteSpace(s[i + |r|..])
  }

  /**
   * `string.Trim`: `s` with white space removed at both ends.  The result is
   * empty exactly when `s` is null-or-white-space, and otherwise starts and
   * ends with a character that is not white space.
   */
  function Trim(s: string): (r: string)
    ensures |r| <= |s|
    ensures |r| == 0 <==> IsNullOrWhiteSpace(s)
    ensures |r| > 0 ==> !IsWhiteSpace(r[0]) && !IsWhiteSpace(r[|r| - 1])
    ensures exists i :: PaddedAt(s, r, i)
  {
    var t := TrimStart(s);
    var r := TrimEnd(t);
    TrimPieces(s, t, r);
    r
  }

  /** Trimming the start and then the end keeps a middle piece of `s` between two blank ones. */
  lemma TrimPieces(s: string, t: string, r: string)
    requires |t| <= |s| && t == s[|s| - |t|..] && IsNullOrWhiteSpace(s[..|s| - |t|])
    requires |t| > 0 ==> !IsWhiteSpace(t[0])
    requires |r| <= |t| && r == t[..|r|] && IsNullOrWhiteSpace(t[|r|..])
    requires |r| == 0 ==> IsNullOrWhiteSpace(t)
    requires |r| > 0 ==> !IsWhiteSpace(r[|r| - 1])
    ensures |r| == 0 <==> IsNullOrWhiteSpace(s)
    ensures |r| > 0 ==> !IsWhiteSpace(r[0]) && !IsWhiteSpace(r[|r| - 1])
    ensures exists i :: PaddedAt(s, r, i)
  {
    var i := |s| - |t|;
    TrimMiddle(s, t, r, i);
    assert PaddedAt(s, r, i);
    if |r| == 0 {
      BlankJoin(s, i);
    } else {
      assert r[0] == s[i];
    }
  }

  /** The kept piece sits at `i` in `s`, and what follows it in `s` is what follows it in `t`. */
  lemma TrimMiddle(s: string, t: string, r: string, i: int)
    requires 0 <= i <= |s| && t == s[i..] && |r| <= |t| && r == t[..|r|]
    ensures i + |r| <= |s| && r == s[i..i + |r|]
    ensures s[i + |r|..] == t[|r|..]
  {
  }

  /** Two blank pieces make a blank string. */
  lemma BlankJoin(s: string, i: int)
    requires 0 <= i <= |s| && IsNullOrWhiteSpace(s[..i]) && IsNullOrWhiteSpace(s[i..])
    ensures IsNullOrWhiteSpace(s)
  {
    forall k | 0 <= k < |s|
      ensures IsWhiteSpace(s[k])
    {
      if k < i {
        assert s[..i][k] == s[k];
      } else {
        assert s[i..][k - i] == s[k];
      }
    }
  }

  /** A string that neither starts nor ends with white space is its own trim. */
  lemma TrimUnchanged(s: string)
    requires |s| > 0 && !IsWhiteSpace(s[0]) && !IsWhiteSpace(s[|s| - 1])
    ensures Trim(s) == s
  {
  }

  /** A string whose first character is not white space is not blank. */
  lemma NotBlank(s: string)
    requires |s| > 0 && !IsWhiteSpace(s[0])
    ensures !IsNullOrWhiteSpace(s)
  {
  }

  predicate IsDigit(c: char) {
    '0' <= c <= '9'
  }

  function DigitChar(d: int): (c: char)
    requires 0 <= d < 10
    ensures IsDigit(c) && c as int - '0' as int == d
  {
    ('0' as int + d) as char
  }

  /** The value of a string of decimal digits, read most significant first. */
  function DecimalValue(s: string): nat
    requires forall i :: 0 <= i < |s| ==> IsDigit(s[i])
  {
    if |s| == 0 then 0
    else
      assert IsDigit(s[|s| - 1]);
      DecimalValue(s[..|s| - 1]) * 10 + (s[|s| - 1] as int - '0' as int)
  }

  /**
   * `ToString()` of a non-negative integer: its shortest decimal numeral,
   * which reads back as the same number.
   */
  function NatToString(n: nat): (r: string)
    ensures |r| > 0 && forall i :: 0 <= i < |r| ==> IsDigit(r[i])
    ensures r[0] == '0' ==> r == "0"
    ensures DecimalValue(r) == n
  {
    if n < 10 then [DigitChar(n)]
    else
      var r := NatToString(n / 10) + [DigitChar(n % 10)];
      assert r[..|r| - 1] == NatToString(n / 10);
      r
  }

  /** Different numbers have different numerals. */
  lemma NatToStringInjective(m: nat, n: nat)
    requires NatToString(m) == NatToString(n)
    ensures m == n
  {
  }

  /** `int.ToString()` in the invariant culture: a minus sign, then the numeral. */
  function IntToString(i: int): (r: string)
    ensures |r| > 0
    ensures r[0] == '-' <==> i < 0
    ensures i >= 0 ==> r == NatToString(i)
    ensures i < 0 ==> r == "-" + NatToString(-i)
  {
    if i < 0 then "-" + NatToString(-i) else NatToString(i)
  }

  /** Leading zeros do not change the value of a numeral. */
  lemma {:induction false} DecimalValueLeadingZeros(z: string, s: string)
    requires forall i :: 0 <= i < |z| ==> z[i] == '0'
    requires forall i :: 0 <= i < |s| ==> IsDigit(s[i])
    ensures forall i :: 0 <= i < |z + s| ==> IsDigit((z + s)[i])
    ensures DecimalValue(z + s) == DecimalValue(s)
    decreases |s|, |z|
  {
    if |s| == 0 {
      assert z + s == z;
      if |z| > 0 {
        DecimalValueLeadingZeros(z[..|z| - 1], s);
        assert z[..|z| - 1] + s == z[..|z| - 1];
      }
    } else {
      assert (z + s)[..|z + s| - 1] == z + s[..|s| - 1];
      DecimalValueLeadingZeros(z, s[..|s| - 1]);
    }
  }

  /**
   * The numeral of `n` padded on the left with zeros to at least `width`
   * characters, as the custom date formats `MM`, `dd` and `yyyy` write it.
   */
  function ZeroPad(n: nat, width: nat): (r: string)
    ensures |r| == if |NatToString(n)| >= width then |NatToString(n)| else width
    ensures forall i :: 0 <= i < |r| ==> IsDigit(r[i])
    ensures DecimalValue(r) == n
  {
    var d := NatToString(n);
    if |d| >= width then d
    else
      var z := seq(width - |d|, _ => '0');
      DecimalValueLeadingZeros(z, d);
      z + d
  }

  /** Lower-cases an ASCII letter and leaves every other character alone. */
  function ToLowerAscii(c: char): char {
    if 'A' <= c <= 'Z' then (c as int + 32) as char else c
  }

  /**
   * Lower-cases every ASCII letter of `s`.  This stands for .NET's
   * `ToLowerInvariant` and JavaScript's `toLowerCase`: they map more
   * characters, but no other character is mapped to one of the ASCII
   * letters of the names the core compares against (`json`, `utf-8`,
   * `utf8`, `utf-16`, `utf16`, `unicode`, `ascii`).
   */
  function ToLowerAsciiString(s: string): (r: string)
    ensures |r| == |s|
    ensures forall i :: 0 <= i < |s| ==> r[i] == ToLowerAscii(s[i])
  {
    seq(|s|, i requires 0 <= i < |s| => ToLowerAscii(s[i]))
  }

  /** `string.Join(sep, xs)`. */
  function Join(xs: seq<string>, sep: string): (r: string)
    ensures |xs| == 0 ==> r == ""
    ensures |xs| == 1 ==> r == xs[0]
  {
    if |xs| == 0 then ""
    else if |xs| == 1 then xs[0]
    else xs[0] + sep + Join(xs[1..], sep)
  }

  /** The pieces of `s` between the occurrences of `sep`, scanning from the left. */
  function Split(s: string, sep: string): (r: seq<string>)
    requires |sep| > 0
    ensures |r| > 0
    decreases |s|
  {
    if |s| < |sep| then [s]
    else if s[..|sep|] == sep then [""] + Split(s[|sep|..], sep)
    else
      var rest := Split(s[1..], sep);
      [[s[0]] + rest[0]] + rest[1..]
  }

  lemma {:induction false} SplitPiece(x: string, sep: string, rest: string)
    requires |sep| > 0 && sep[0] !in x
    ensures Split(x, sep) == [x]
    ensures Split(x + sep + rest, sep) == [x] + Split(rest, sep)
    decreases |x|
  {
    if |x| == 0 {
      assert x + sep + rest == sep + rest;
      assert (sep + rest)[|sep|..] == rest;
    } else {
      var s := x + sep + rest;
      assert s[0] == x[0];
      assert s[1..] == x[1..] + sep + rest;
      SplitPiece(x[1..], sep, rest);
      assert [x[0]] + x[1..] == x;
      if |x| >= |sep| {
        assert x[0] != sep[0];
      }
    }
  }

  /**
   * `Join` loses nothing when no piece contains the first character of the
   * separator: splitting the joined text at the separator gives the pieces back.
   */
  lemma {:induction false} SplitJoin(xs: seq<string>, sep: string)
    requires |xs| > 0 && |sep| > 0
    requires forall i :: 0 <= i < |xs| ==> sep[0] !in xs[i]
    ensures Split(Join(xs, sep), sep) == xs
  {
    if |xs| == 1 {
      SplitPiece(xs[0], sep, "");
    } else {
      SplitJoin(xs[1..], sep);
      SplitPiece(xs[0], sep, Join(xs[1..], sep));
      assert [xs[0]] + xs[1..] == xs;
    }
  }
}
