/**
 * The pieces of .NET text formatting the backup engine relies on: the decimal
 * rendering of an integer (`long.ToString()`, which uses the current
 * culture's negative sign, taken here to be '-'), the two- and four-digit
 * fields of a date format string, and ASCII case mapping (`ToLowerInvariant`,
 * `StringComparison.OrdinalIgnoreCase`).
 */
module DotNetText {

  /** One byte of a file or of a digest. */
  type byte = x: int | 0 <= x < 256

  predicate IsDigit(c: char) {
    '0' <= c <= '9'
  }

  predicate AllDigits(s: string) {
    forall i :: 0 <= i < |s| ==> IsDigit(s[i])
  }

  function DigitChar(d: nat): (c: char)
    requires d < 10
    ensures IsDigit(c) && c as int - '0' as int == d
  {
    ('0' as int + d) as char
  }

  function DigitValue(c: char): (d: nat)
    requires IsDigit(c)
    ensures d < 10 && DigitChar(d) == c
  {
    c as int - '0' as int
  }

  /** Decimal digits of `n`, most significant first, without leading zeros. */
  function NatToString(n: nat): (s: string)
    ensures |s| >= 1 && AllDigits(s)
    ensures s[0] == '0' <==> n == 0
    decreases n
  {
    if n < 10 then [DigitChar(n)] else NatToString(n / 10) + [DigitChar(n % 10)]
  }

  /** The value of a run of decimal digits, leading zeros allowed (the inverse of `NatToString`). */
  function ParseNat(s: string): nat
    requires AllDigits(s)
    decreases |s|
  {
    if |s| == 0 then 0 else 10 * ParseNat(s[..|s| - 1]) + DigitValue(s[|s| - 1])
  }

  lemma {:induction false} ParseNatToString(n: nat)
    ensures ParseNat(NatToString(n)) == n
    decreases n
  {
    if n >= 10 {
      var s := NatToString(n);
      assert s[..|s| - 1] == NatToString(n / 10);
      ParseNatToString(n / 10);
    }
  }

  /**
   * `long.ToString()`: an optional minus sign followed by the decimal digits
   * of the magnitude. The rendering never holds a '.', a '/' or a '_'.
   */
  function IntToString(i: int): (s: string)
    ensures |s| >= 1
    ensures s[0] == '-' <==> i < 0
    ensures forall k :: 0 <= k < |s| ==> IsDigit(s[k]) || (k == 0 && s[k] == '-')
    ensures i >= 0 ==> (s[0] == '0' <==> i == 0)
    ensures i < 0 ==> |s| >= 2 && s[1] != '0'
  {
    if i < 0 then "-" + NatToString(-i) else NatToString(i)
  }

  /** `long.Parse` restricted to what `IntToString` produces. */
  function ParseInt(s: string): int
    requires |s| >= 1
    requires forall k :: 0 <= k < |s| ==> IsDigit(s[k]) || (k == 0 && s[k] == '-')
  {
    if s[0] == '-' then -(ParseNat(s[1..]) as int) else ParseNat(s)
  }

  lemma ParseIntToString(i: int)
    ensures ParseInt(IntToString(i)) == i
  {
    if i < 0 {
      assert IntToString(i)[1..] == NatToString(-i);
      ParseNatToString(-i);
    } else {
      ParseNatToString(i);
    }
  }

  /**
   * `name` starts with the decimal rendering of `id` and a '.', so the text
   * before its first '.' reads back as `id`.
   */
  predicate StartsWithIdAndDot(name: string, id: int) {
    var s := IntToString(id);
    |name| > |s| && name[..|s|] == s && name[|s|] == '.' && ParseInt(name[..|s|]) == id
  }

  /** Distinct integers have distinct renderings. */
  lemma IntToStringInjective(a: int, b: int)
    ensures IntToString(a) == IntToString(b) ==> a == b
  {
    ParseIntToString(a);
    ParseIntToString(b);
  }

  /** Two renderings followed by the same suffix are equal only for equal integers. */
  lemma IntToStringSuffixInjective(a: int, b: int, suffix: string)
    ensures IntToString(a) + suffix == IntToString(b) + suffix ==> a == b
  {
    var sa, sb := IntToString(a), IntToString(b);
    if sa + suffix == sb + suffix {
      assert |sa| == |sb|;
      assert sa == (sa + suffix)[..|sa|] == (sb + suffix)[..|sb|] == sb;
      IntToStringInjective(a, b);
    }
  }

  /** Equal texts with a common prefix agree after it. */
  lemma PrefixCancel(p: string, x: string, y: string)
    ensures p + x == p + y ==> x == y
  {
    if p + x == p + y {
      assert x == (p + x)[|p|..] && y == (p + y)[|p|..];
    }
  }

  /** Past its first character, a rendering followed by anything holds only digits. */
  lemma DigitAfterSign(a: int, k: int, x: string)
    ensures 0 < k < |IntToString(a)| ==> IsDigit((IntToString(a) + x)[k])
  {
  }

  /**
   * A rendering followed by text that starts with neither a digit nor a sign
   * can be split back: the integer and the text that follows are both determined.
   */
  lemma IntToStringDelimited(a: int, b: int, x: string, y: string)
    requires |x| > 0 && !IsDigit(x[0]) && x[0] != '-'
    requires |y| > 0 && !IsDigit(y[0]) && y[0] != '-'
    ensures IntToString(a) + x == IntToString(b) + y ==> a == b && x == y
  {
    var sa, sb := IntToString(a), IntToString(b);
    if sa + x == sb + y {
      if |sa| < |sb| {
        DigitAfterSign(b, |sa|, y);
        assert false;
      } else if |sb| < |sa| {
        DigitAfterSign(a, |sb|, x);
        assert false;
      }
      assert sa == (sa + x)[..|sa|] == (sb + y)[..|sb|] == sb;
      assert x == (sa + x)[|sa|..] == (sb + y)[|sb|..] == y;
      IntToStringInjective(a, b);
    }
  }

  /** A two-digit, zero-padded field: the "MM", "dd", "HH", "mm" and "ss" of a date format. */
  function Pad2(n: nat): (s: string)
    requires n < 100
    ensures |s| == 2 && AllDigits(s) && ParseNat(s) == n
  {
    var s := [DigitChar(n / 10), DigitChar(n % 10)];
    assert s[..1][..0] == [];
    assert ParseNat(s[..1]) == n / 10 by { assert s[..1] == [s[0]]; }
    s
  }

  /** Two more digits after a run of digits multiply its value by a hundred. */
  lemma ParseNatTwoMore(a: string, b: string)
    requires AllDigits(a) && AllDigits(b) && |b| == 2
    ensures AllDigits(a + b) && ParseNat(a + b) == 100 * ParseNat(a) + ParseNat(b)
  {
    var ab, a1 := a + b, a + [b[0]];
    assert ab[..|ab| - 1] == a1 && ab[|ab| - 1] == b[1];
    assert a1[..|a|] == a && a1[|a1| - 1] == b[0];
    assert ParseNat(a1) == 10 * ParseNat(a) + DigitValue(b[0]);
    assert b[..|b| - 1] == [b[0]] && [b[0]][..0] == [];
    assert ParseNat([b[0]]) == DigitValue(b[0]);
    assert ParseNat(b) == 10 * DigitValue(b[0]) + DigitValue(b[1]);
  }

  /** A four-digit, zero-padded field: the "yyyy" of a date format, for years 1 to 9999. */
  function Pad4(n: nat): (s: string)
    requires n < 10000
    ensures |s| == 4 && AllDigits(s) && ParseNat(s) == n
  {
    ParseNatTwoMore(Pad2(n / 100), Pad2(n % 100));
    Pad2(n / 100) + Pad2(n % 100)
  }

  predicate IsAsciiUpper(c: char) {
    'A' <= c <= 'Z'
  }

  predicate IsAsciiLower(c: char) {
    'a' <= c <= 'z'
  }

  /** `char.ToLowerInvariant` on the ASCII range; other characters are left as they are. */
  function ToLowerAscii(c: char): (r: char)
    ensures !IsAsciiUpper(r)
    ensures IsAsciiUpper(c) ==> IsAsciiLower(r) && r as int == c as int + 32
    ensures !IsAsciiUpper(c) ==> r == c
  {
    if IsAsciiUpper(c) then (c as int + 32) as char else c
  }

  /** `char.ToUpperInvariant` on the ASCII range; other characters are left as they are. */
  function ToUpperAscii(c: char): (r: char)
    ensures !IsAsciiLower(r)
    ensures IsAsciiLower(c) ==> IsAsciiUpper(r) && c as int == r as int + 32
    ensures !IsAsciiLower(c) ==> r == c
  {
    if IsAsciiLower(c) then (c as int - 32) as char else c
  }

  /** `string.ToLowerInvariant`, character by character. */
  function ToLowerInvariant(s: string): (r: string)
    ensures |r| == |s|
    ensures forall i :: 0 <= i < |s| ==> r[i] == ToLowerAscii(s[i])
  {
    seq(|s|, i requires 0 <= i < |s| => ToLowerAscii(s[i]))
  }

  /** `string.Equals(a, b, StringComparison.OrdinalIgnoreCase)`: equal after upper-casing each character. */
  predicate EqualsOrdinalIgnoreCase(a: string, b: string) {
    |a| == |b| && forall i :: 0 <= i < |a| ==> ToUpperAscii(a[i]) == ToUpperAscii(b[i])
  }

  /** Lower-casing works character by character, so it distributes over concatenation. */
  lemma ToLowerInvariantAppend(a: string, b: string)
    ensures ToLowerInvariant(a + b) == ToLowerInvariant(a) + ToLowerInvariant(b)
  {
  }

  /** On strings with no upper-case letter, ignoring case changes nothing. */
  lemma EqualsIgnoreCaseOfLowerCase(a: string, b: string)
    requires forall i :: 0 <= i < |a| ==> !IsAsciiUpper(a[i])
    requires forall i :: 0 <= i < |b| ==> !IsAsciiUpper(b[i])
    ensures EqualsOrdinalIgnoreCase(a, b) <==> a == b
  {
    if EqualsOrdinalIgnoreCase(a, b) {
      forall i | 0 <= i < |a| ensures a[i] == b[i] {
        assert ToUpperAscii(a[i]) == ToUpperAscii(b[i]);
      }
    }
  }
}
