/**
 * Signed 64-bit integers and their decimal text form, as `str::parse::<i64>`
 * reads it: an optional `+` or `-` sign followed by at least one ASCII digit,
 * nothing else, and a value that fits in 64 bits.
 */
module Numbers {
  import opened Wrappers

  const I64Min: int := -0x8000_0000_0000_0000
  const I64Max: int := 0x7FFF_FFFF_FFFF_FFFF

  newtype i64 = x: int | -0x8000_0000_0000_0000 <= x < 0x8000_0000_0000_0000

  predicate IsDigit(c: char) {
    '0' <= c <= '9'
  }

  predicate AllDigits(s: string) {
    forall i :: 0 <= i < |s| ==> IsDigit(s[i])
  }

  function DigitValue(c: char): (d: nat)
    requires IsDigit(c)
    ensures d < 10
  {
    c as int - '0' as int
  }

  function DigitChar(d: nat): (c: char)
    requires d < 10
    ensures IsDigit(c) && DigitValue(c) == d
  {
    ('0' as int + d) as char
  }

  /** The number a string of decimal digits denotes, most significant digit first. */
  function DecimalValue(ds: string): nat
    requires AllDigits(ds)
  {
    if ds == [] then 0 else DecimalValue(ds[..|ds| - 1]) * 10 + DigitValue(ds[|ds| - 1])
  }

  /** `str::parse::<i64>`: `None` for the empty text, a lone sign, any non-digit after the sign, or overflow. */
  function ParseI64(s: string): Option<i64> {
    if s == [] then None
    else
      var negative := s[0] == '-';
      var digits := if s[0] == '+' || s[0] == '-' then s[1..] else s;
      if digits == [] || !AllDigits(digits) then None
      else
        var magnitude: int := DecimalValue(digits);
        var n := if negative then -magnitude else magnitude;
        if I64Min <= n <= I64Max then Some(n as i64) else None
  }

  /** The shortest decimal digits of `n`, as `Display` writes them. */
  function ShowNat(n: nat): (ds: string)
    ensures ds != [] && AllDigits(ds)
    ensures DecimalValue(ds) == n
  {
    if n < 10 then [DigitChar(n)]
    else
      var init := ShowNat(n / 10);
      var ds := init + [DigitChar(n % 10)];
      assert ds[..|ds| - 1] == init;
      ds
  }

  /** The decimal text of an integer: a `-` for negative numbers, then its digits. */
  function Show(n: int): string {
    if n < 0 then "-" + ShowNat(-n) else ShowNat(n)
  }

  /**
   * Reading back the decimal text of any integer gives that integer when it
   * fits in 64 bits, and fails otherwise.
   */
  lemma ParseShow(n: int)
    ensures ParseI64(Show(n)) == if I64Min <= n <= I64Max then Some(n as i64) else None
  {
    var s := Show(n);
    if n < 0 {
      assert s[1..] == ShowNat(-n);
    } else {
      assert s[0] != '+' && s[0] != '-' by { assert IsDigit(s[0]); }
    }
  }

  /**
   * Text with any character other than a digit after the optional leading
   * sign (a unit suffix such as `50s`, a decimal point, a space) is rejected.
   */
  lemma ParseRejectsNonDigit(s: string, i: nat)
    requires i < |s| && !IsDigit(s[i])
    requires i > 0 || (s[0] != '+' && s[0] != '-')
    ensures ParseI64(s) == None
  {
    if i > 0 && (s[0] == '+' || s[0] == '-') {
      assert s[1..][i - 1] == s[i];
    }
  }

  /**
   * An optional `+` or `-` followed by at least one digit, leading zeros
   * allowed, reads as the value the digits denote, negated after `-`, when
   * that value fits in 64 bits, and fails otherwise.
   */
  lemma ParseSigned(sign: string, ds: string)
    requires sign == "" || sign == "+" || sign == "-"
    requires ds != [] && AllDigits(ds)
    ensures var n: int := if sign == "-" then -(DecimalValue(ds) as int) else DecimalValue(ds);
      ParseI64(sign + ds) == if I64Min <= n <= I64Max then Some(n as i64) else None
  {
    var s := sign + ds;
    if sign == "" {
      assert s == ds;
      assert IsDigit(ds[0]);
    } else {
      assert s[1..] == ds;
    }
  }

  /** The empty text and a lone sign hold no digit and are rejected. */
  lemma ParseRejectsNoDigits()
    ensures ParseI64("") == None && ParseI64("+") == None && ParseI64("-") == None
  {
    assert "+"[1..] == [] && "-"[1..] == [];
  }

  /** A plus sign, leading zeros and a negative zero are all accepted. */
  lemma ParseSignedExamples()
    ensures ParseI64("+7") == Some(7) && ParseI64("007") == Some(7) && ParseI64("-0") == Some(0)
  {
    assert DecimalValue("7") == 7;
    assert "007"[..2] == "00" && "00"[..1] == "0" && "0"[..0] == "";
    assert DecimalValue("007") == 7;
    assert DecimalValue("0") == 0;
    ParseSigned("+", "7");
    assert "+" + "7" == "+7";
    ParseSigned("", "007");
    assert "" + "007" == "007";
    ParseSigned("-", "0");
    assert "-" + "0" == "-0";
  }
}
