/**
 * Decimal text and numbers as the test scripts use them: `parseInt` on decimal text,
 * the decimal rendering of an integer, and `padStart` with a one-character pad.
 */
module Numbers {
  import opened Wrappers
  import opened Text

  predicate IsDigit(c: char) {
    '0' <= c <= '9'
  }

  predicate AllDigits(s: string) {
    forall i | 0 <= i < |s| :: IsDigit(s[i])
  }

  function DigitValue(c: char): (d: nat)
    requires IsDigit(c)
    ensures d < 10
  {
    c as int - '0' as int
  }

  function DigitChar(d: nat): (c: char)
    requires d < 10
    ensures IsDigit(c) && DigitValue(c) == d
  {
    ('0' as int + d) as char
  }

  /** The value of a string of decimal digits, most significant first. */
  function DigitsValue(s: string): nat
    requires AllDigits(s)
  {
    if s == [] then 0 else DigitsValue(s[..|s| - 1]) * 10 + DigitValue(s[|s| - 1])
  }

  /** The decimal rendering of `n`, without leading zeros. */
  function NatToString(n: nat): string {
    if n < 10 then [DigitChar(n)] else NatToString(n / 10) + [DigitChar(n % 10)]
  }

  /** The rendering is a non-empty digit string, with no leading zero, whose value is `n`. */
  lemma {:induction false} NatToStringIsDecimal(n: nat)
    ensures var r := NatToString(n);
            && r != [] && AllDigits(r)
            && (r[0] == '0' ==> n == 0)
            && DigitsValue(r) == n
  {
    if n >= 10 {
      NatToStringIsDecimal(n / 10);
      var r := NatToString(n);
      assert r[..|r| - 1] == NatToString(n / 10);
    }
  }

  /** The decimal rendering of `i`, with a leading '-' when it is negative (JavaScript's `String(i)`). */
  function IntToString(i: int): string {
    if i < 0 then "-" + NatToString(-i) else NatToString(i)
  }

  lemma IntToStringTrimmed(i: int)
    ensures IntToString(i) != [] && Trimmed(IntToString(i))
  {
    NatToStringIsDecimal(if i < 0 then -i else i);
  }

  /** The longest prefix of `s` made of decimal digits. */
  function DigitRun(s: string): (r: string)
    ensures |r| <= |s| && r == s[..|r|] && AllDigits(r)
    ensures |r| == |s| || !IsDigit(s[|r|])
  {
    if s != [] && IsDigit(s[0]) then
      var rest := DigitRun(s[1..]);
      assert [s[0]] + s[1..][..|rest|] == s[..|rest| + 1];
      [s[0]] + rest
    else []
  }

  /**
   * JavaScript's `parseInt(s)` on decimal text: leading white space is skipped, one sign is
   * allowed, and the longest run of digits that follows is the value; `None` stands for `NaN`.
   */
  function ParseInt(s: string): (r: Option<int>)
    ensures r.None? <==> DigitRun(SignFree(TrimStart(s))) == []
  {
    var t := TrimStart(s);
    var digits := DigitRun(SignFree(t));
    var magnitude: int := if digits == [] then 0 else DigitsValue(digits);
    if digits == [] then None
    else if t[0] == '-' then Some(-magnitude)
    else Some(magnitude)
  }

  /** `s` without one leading '+' or '-'. */
  function SignFree(s: string): (r: string)
    ensures r == if s != [] && (s[0] == '-' || s[0] == '+') then s[1..] else s
  {
    if s != [] && (s[0] == '-' || s[0] == '+') then s[1..] else s
  }

  lemma DigitRunOfDigits(s: string)
    requires AllDigits(s)
    ensures DigitRun(s) == s
  {
  }

  /** `parseInt` reads back what `IntToString` wrote. */
  lemma ParseIntToString(i: int)
    ensures ParseInt(IntToString(i)) == Some(i)
  {
    var m: nat := if i < 0 then -i else i;
    IntToStringShape(i);
    NatToStringIsDecimal(m);
    DigitRunOfDigits(NatToString(m));
  }

  /** The rendering starts with '-' exactly for a negative number, has no leading white space, and is a sign and the digits of the magnitude. */
  lemma IntToStringShape(i: int)
    ensures var s := IntToString(i);
            && s != [] && (s[0] == '-' <==> i < 0)
            && TrimStart(s) == s
            && SignFree(s) == NatToString(if i < 0 then -i else i)
  {
    var m: nat := if i < 0 then -i else i;
    var n := NatToString(m);
    NatToStringIsDecimal(m);
    var s := IntToString(i);
    assert s == if i < 0 then "-" + n else n;
    assert !IsSpace(s[0]) by {
      assert s[0] == '-' || IsDigit(s[0]);
    }
  }

  /** Distinct integers have distinct renderings. */
  lemma IntToStringInjective(a: int, b: int)
    ensures IntToString(a) == IntToString(b) ==> a == b
  {
    ParseIntToString(a);
    ParseIntToString(b);
  }

  /** JavaScript's `s.padStart(n, [c])`: `c` repeated in front of `s` up to length `n`. */
  function PadStart(s: string, n: nat, c: char): (r: string)
    ensures |r| == if |s| >= n then |s| else n
    ensures r[|r| - |s|..] == s
    ensures forall i | 0 <= i < |r| - |s| :: r[i] == c
  {
    if |s| >= n then s else seq(n - |s|, _ => c) + s
  }

  /** Shorthand for the scripts' `padStart(2, '0')`. */
  function Pad2(s: string): (r: string)
    ensures |s| >= 2 ==> r == s
    ensures |s| == 1 ==> r == ['0'] + s
    ensures |s| == 0 ==> r == "00"
    ensures |r| >= 2
  {
    PadStart(s, 2, '0')
  }

  /** Padding a padded string changes nothing. */
  lemma Pad2Idempotent(s: string)
    ensures Pad2(Pad2(s)) == Pad2(s)
  {
  }
}
