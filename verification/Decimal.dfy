/** Signed 64-bit integers as decimal text, as the standard library prints and
    parses them. */
module Decimal {
  import opened Prelude

  const I64_MIN: int := -0x8000_0000_0000_0000
  const I64_MAX: int := 0x7FFF_FFFF_FFFF_FFFF

  predicate IsI64(n: int) {
    I64_MIN <= n <= I64_MAX
  }

  predicate IsDigit(b: byte) {
    48 <= b <= 57
  }

  function PrintNat(n: nat): Bytes {
    if n < 10 then [48 + n] else PrintNat(n / 10) + [48 + n % 10]
  }

  function Print(n: int): Bytes {
    if n < 0 then [45] + PrintNat(-n) else PrintNat(n)
  }

  function DigitsValue(s: Bytes): Option<nat> {
    if s == [] then Some(0)
    else
      var d := s[|s| - 1];
      match DigitsValue(s[..|s| - 1])
      case None => None
      case Some(v) => if IsDigit(d) then Some(10 * v + (d - 48)) else None
  }

  function InRange(n: int): Option<int> {
    if IsI64(n) then Some(n) else None
  }

  /** An optional sign, then at least one digit, and no overflow. */
  function Parse(s: Bytes): Option<int> {
    if s == [] then None
    else
      var signed := s[0] == 45 || s[0] == 43;
      var digits := if signed then s[1..] else s;
      if digits == [] then None
      else
        match DigitsValue(digits)
        case None => None
        case Some(v) =>
          var n: int := v;
          InRange(if s[0] == 45 then -n else n)
  }

  lemma {:induction false} PrintNatDigits(n: nat)
    ensures PrintNat(n) != [] && IsDigit(PrintNat(n)[0])
    ensures forall b :: b in PrintNat(n) ==> IsDigit(b)
    ensures DigitsValue(PrintNat(n)) == Some(n)
  {
    if n < 10 {
      assert [48 + n][..0] == [];
      assert DigitsValue([]) == Some(0);
    } else {
      PrintNatDigits(n / 10);
      var s := PrintNat(n);
      assert s[..|s| - 1] == PrintNat(n / 10);
    }
  }

  /** Every 64-bit integer survives printing and parsing. */
  lemma PrintParse(n: int)
    requires IsI64(n)
    ensures Parse(Print(n)) == Some(n)
    ensures forall b :: b in Print(n) ==> b == 45 || IsDigit(b)
  {
    if n < 0 {
      PrintNatDigits(-n);
      assert Print(n)[1..] == PrintNat(-n);
    } else {
      PrintNatDigits(n);
    }
  }

  /** What parses is printable again, so a parsed value is a 64-bit integer. */
  lemma ParseInRange(s: Bytes)
    ensures Parse(s).Some? ==> IsI64(Parse(s).value)
  {
  }

  function Pow10(d: nat): nat {
    if d == 0 then 1 else 10 * Pow10(d - 1)
  }

  lemma {:induction false} PrintNatShort(n: nat, d: nat)
    requires 1 <= d && n < Pow10(d)
    ensures |PrintNat(n)| <= d
  {
    if n >= 10 {
      PrintNatShort(n / 10, d - 1);
    }
  }

  /** A 64-bit integer prints in at most 20 characters. */
  lemma PrintShort(n: int)
    requires IsI64(n)
    ensures |Print(n)| <= 20
  {
    assert Pow10(4) == 10_000;
    assert Pow10(8) == 100_000_000;
    assert Pow10(12) == 1_000_000_000_000;
    assert Pow10(16) == 10_000_000_000_000_000;
    assert Pow10(19) == 10_000_000_000_000_000_000;
    PrintNatShort(if n < 0 then -n else n, 19);
  }

  /** Decimal text, digit by digit. */
  lemma PrintGrows(n: nat, d: nat)
    requires d < 10
    ensures n > 0 ==> PrintNat(10 * n + d) == PrintNat(n) + [48 + d]
    ensures n == 0 ==> PrintNat(d) == [48 + d]
  {
    if n > 0 {
      QuotientIsUnique(10, (10 * n + d) / 10, (10 * n + d) % 10, n, d);
    }
  }

  /** The text of an integer that does not fit 64 bits is no number. */
  lemma OverflowIsRefused(n: int)
    requires !IsI64(n)
    ensures Parse(Print(n)) == None
  {
    if n < 0 {
      PrintNatDigits(-n);
      assert Print(n)[1..] == PrintNat(-n);
    } else {
      PrintNatDigits(n);
    }
  }

  lemma PrintExamples()
    ensures Print(0) == Ascii("0") && Print(-1) == Ascii("-1") && Print(1203) == Ascii("1203")
  {
    PrintGrows(1, 2);
    PrintGrows(12, 0);
    PrintGrows(120, 3);
    assert PrintNat(1) == [49];
    assert Ascii("1203") == [49, 50, 48, 51];
    assert Ascii("-1") == [45, 49];
  }

  lemma DigitAfter(s: Bytes, t: Bytes, b: byte)
    requires t == s + [b]
    ensures DigitsValue([]) == Some(0)
    ensures DigitsValue(t) == if DigitsValue(s) == None || !IsDigit(b) then None else Some(10 * DigitsValue(s).value + (b - 48))
  {
    assert t[..|t| - 1] == s;
  }

  /** A sign alone and stray characters are no number; a plus sign and leading
      zeros are allowed. */
  lemma ParseExamples()
    ensures Parse(Ascii("")) == None && Parse(Ascii("-")) == None && Parse(Ascii("1x")) == None
    ensures Parse(Ascii("+7")) == Some(7) && Parse(Ascii("07")) == Some(7)
  {
    assert Ascii("-")[1..] == [];
    DigitAfter([], Ascii("+7")[1..], 55);
    DigitAfter([], [48], 48);
    DigitAfter([48], Ascii("07"), 55);
    DigitAfter([], [49], 49);
    DigitAfter([49], Ascii("1x"), 120);
  }
}
