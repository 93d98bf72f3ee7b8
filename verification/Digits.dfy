/** Numbers as text: the decimal form of fmt's {}, the hexadecimal form of {:x}, and
    their readers. */
module Digits {

  predicate IsDigit(c: char) {
    '0' <= c <= '9'
  }

  function DigitOf(d: nat): (c: char)
    requires d < 10
    ensures IsDigit(c) && DigitValue(c) == d
  {
    ('0' as int + d) as char
  }

  function DigitValue(c: char): (d: nat)
    requires IsDigit(c)
    ensures d < 10
  {
    c as int - '0' as int
  }

  predicate AllDigits(s: string) {
    forall i :: 0 <= i < |s| ==> IsDigit(s[i])
  }

  /** How many digits the string starts with. */
  function DigitRun(s: string): (k: nat)
    ensures k <= |s| && AllDigits(s[..k]) && (k < |s| ==> !IsDigit(s[k]))
  {
    if s == "" || !IsDigit(s[0]) then 0
    else
      var k := DigitRun(s[1..]);
      assert s[..k + 1] == [s[0]] + s[1..][..k];
      k + 1
  }

  function Decimal(n: nat): (s: string)
    ensures s != "" && AllDigits(s)
  {
    if n < 10 then [DigitOf(n)] else Decimal(n / 10) + [DigitOf(n % 10)]
  }

  /** The number a string of digits denotes; leading zeros do not matter. */
  function Value(s: string): nat
    requires AllDigits(s)
  {
    if s == "" then 0 else 10 * Value(s[..|s| - 1]) + DigitValue(s[|s| - 1])
  }

  lemma {:induction false} DecimalReadsBack(n: nat)
    ensures Value(Decimal(n)) == n
  {
    if n >= 10 {
      DecimalReadsBack(n / 10);
      assert Decimal(n)[..|Decimal(n)| - 1] == Decimal(n / 10);
    }
  }

  // ---------------------------------------------------------------------------
  // Hexadecimal
  // ---------------------------------------------------------------------------

  predicate IsHexDigit(c: char) {
    IsDigit(c) || 'a' <= c <= 'f' || 'A' <= c <= 'F'
  }

  function HexDigitValue(c: char): (d: nat)
    requires IsHexDigit(c)
    ensures d < 16
  {
    if IsDigit(c) then DigitValue(c)
    else if 'a' <= c <= 'f' then c as int - 'a' as int + 10
    else c as int - 'A' as int + 10
  }

  function HexDigitOf(d: nat): (c: char)
    requires d < 16
    ensures IsHexDigit(c) && HexDigitValue(c) == d
  {
    if d < 10 then DigitOf(d) else ('a' as int + (d - 10)) as char
  }

  predicate AllHexDigits(s: string) {
    forall i :: 0 <= i < |s| ==> IsHexDigit(s[i])
  }

  function Hex(n: nat): (s: string)
    ensures s != "" && AllHexDigits(s)
  {
    if n < 16 then [HexDigitOf(n)] else Hex(n / 16) + [HexDigitOf(n % 16)]
  }

  function HexValue(s: string): nat
    requires AllHexDigits(s)
  {
    if s == "" then 0 else 16 * HexValue(s[..|s| - 1]) + HexDigitValue(s[|s| - 1])
  }

  lemma {:induction false} HexReadsBack(n: nat)
    ensures HexValue(Hex(n)) == n
  {
    if n >= 16 {
      HexReadsBack(n / 16);
      assert Hex(n)[..|Hex(n)| - 1] == Hex(n / 16);
    }
  }

  // ---------------------------------------------------------------------------
  // No other digits
  // ---------------------------------------------------------------------------

  /** The decimal form has no zero in front. */
  lemma {:induction false} DecimalIsShort(n: nat)
    ensures Decimal(n)[0] == '0' <==> n == 0
    ensures n == 0 ==> Decimal(n) == "0"
  {
    if n >= 10 {
      DecimalIsShort(n / 10);
      assert Decimal(n)[0] == Decimal(n / 10)[0];
    }
  }

  /** Nor has the hexadecimal one, and its letters are small. */
  lemma {:induction false} HexIsShort(n: nat)
    ensures Hex(n)[0] == '0' <==> n == 0
    ensures n == 0 ==> Hex(n) == "0"
    ensures forall i :: 0 <= i < |Hex(n)| ==> IsDigit(Hex(n)[i]) || 'a' <= Hex(n)[i] <= 'f'
  {
    if n >= 16 {
      HexIsShort(n / 16);
      assert Hex(n)[0] == Hex(n / 16)[0];
    }
  }

  /** For example. */
  lemma NumbersSpelled()
    ensures Decimal(1090) == "1090" && Value("1090") == 1090
    ensures Hex(431) == "1af" && HexValue("1af") == 431
  {
    assert Decimal(1) == "1" && Decimal(10) == "10" && Decimal(109) == "109";
    assert Hex(1) == "1" && Hex(26) == "1a";
    DecimalReadsBack(1090);
    HexReadsBack(431);
  }
}
