/**
 * Machine integer ranges and the decimal text Go's fmt verb %d produces,
 * with the facts about separators that the key encoding relies on.
 */
module Text {
  type byte = x: int | 0 <= x < 0x100
  type uint16 = x: int | 0 <= x < 0x1_0000

  predicate IsDigit(c: char) {
    '0' <= c <= '9'
  }

  predicate AllDigits(s: string) {
    forall i :: 0 <= i < |s| ==> IsDigit(s[i])
  }

  function DigitChar(d: nat): (c: char)
    requires d < 10
    ensures IsDigit(c) && c as int - '0' as int == d
  {
    ('0' as int + d) as char
  }

  /** %d of a non-negative integer: no sign and no leading zeros. */
  function Decimal(n: nat): (s: string)
    ensures |s| > 0 && AllDigits(s)
    ensures s[0] == '0' <==> n == 0
    decreases n
  {
    if n < 10 then [DigitChar(n)] else Decimal(n / 10) + [DigitChar(n % 10)]
  }

  /** Reads a string of decimal digits back as a number (the inverse of Decimal). */
  function ParseDecimal(s: string): nat
    requires AllDigits(s)
  {
    if s == [] then 0
    else ParseDecimal(s[..|s| - 1]) * 10 + (s[|s| - 1] as int - '0' as int)
  }

  lemma {:induction false} ParseDecimalInverts(n: nat)
    ensures ParseDecimal(Decimal(n)) == n
  {
    if n >= 10 {
      var s := Decimal(n);
      assert s[..|s| - 1] == Decimal(n / 10);
      ParseDecimalInverts(n / 10);
    }
  }

  lemma DecimalInjective(m: nat, n: nat)
    requires Decimal(m) == Decimal(n)
    ensures m == n
  {
    ParseDecimalInverts(m);
    ParseDecimalInverts(n);
  }

  /** Decimal text holds neither a path separator, a colon nor a dot. */
  lemma DecimalHasNoSeparators(n: nat)
    ensures '/' !in Decimal(n) && ':' !in Decimal(n) && '.' !in Decimal(n)
  {
    var s := Decimal(n);
    forall i | 0 <= i < |s|
      ensures s[i] != '/' && s[i] != ':' && s[i] != '.'
    {
      assert IsDigit(s[i]);
    }
  }

  /** Splitting at the FIRST occurrence of a separator that the left parts lack is unique. */
  lemma SplitAtFirst(x: string, y: string, x': string, y': string, c: char)
    requires x + [c] + y == x' + [c] + y'
    requires c !in x && c !in x'
    ensures x == x' && y == y'
  {
    var s := x + [c] + y;
    assert s[|x|] == c;
    assert s[|x'|] == c;
    assert forall k :: 0 <= k < |x| ==> s[k] == x[k];
    assert forall k :: 0 <= k < |x'| ==> s[k] == x'[k];
    assert |x| == |x'|;
    assert x == s[..|x|] && x' == s[..|x'|];
    assert y == s[|x| + 1..] && y' == s[|x'| + 1..];
  }

  /** Splitting at the LAST occurrence of a separator that the right parts lack is unique. */
  lemma SplitAtLast(x: string, y: string, x': string, y': string, c: char)
    requires x + [c] + y == x' + [c] + y'
    requires c !in y && c !in y'
    ensures x == x' && y == y'
  {
    var s := x + [c] + y;
    assert s[|x|] == c;
    assert s[|x'|] == c;
    assert forall k :: 0 <= k < |y| ==> s[|x| + 1 + k] == y[k];
    assert forall k :: 0 <= k < |y'| ==> s[|x'| + 1 + k] == y'[k];
    assert |y| == |y'|;
    assert x == s[..|x|] && x' == s[..|x'|];
    assert y == s[|x| + 1..] && y' == s[|x'| + 1..];
  }
}
