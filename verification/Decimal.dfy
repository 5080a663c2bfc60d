/** Decimal text of integers: what std::to_string prints and what std::from_chars accepts
    (base 10, the whole text, 64-bit range). */
module Decimal {
  import opened Wrappers

  const I64_MIN: int := -0x8000_0000_0000_0000
  const I64_MAX: int := 0x7FFF_FFFF_FFFF_FFFF
  const U64_MAX: int := 0xFFFF_FFFF_FFFF_FFFF

  /** Machine arithmetic on signed 64-bit integers: an operation that could overflow is refused. */
  newtype int64 = n: int | -0x8000_0000_0000_0000 <= n <= 0x7FFF_FFFF_FFFF_FFFF

  predicate InI64(n: int) {
    I64_MIN <= n <= I64_MAX
  }

  predicate IsDigit(c: char) {
    '0' <= c <= '9'
  }

  predicate AllDigits(s: string) {
    forall i | 0 <= i < |s| :: IsDigit(s[i])
  }

  function Digit(d: nat): (c: char)
    requires d < 10
    ensures IsDigit(c) && DigitValue(c) == d
  {
    ('0' as int + d) as char
  }

  function DigitValue(c: char): nat
    requires IsDigit(c)
  {
    c as int - '0' as int
  }

  /** The decimal digits of a natural number, without leading zeros. */
  function NatText(n: nat): (s: string)
    ensures 1 <= |s| && AllDigits(s)
  {
    if n < 10 then [Digit(n)] else NatText(n / 10) + [Digit(n % 10)]
  }

  /** std::to_string. */
  function IntText(n: int): (s: string)
    ensures 1 <= |s|
    ensures forall i | 0 <= i < |s| :: IsDigit(s[i]) || s[i] == '-'
  {
    if n < 0 then "-" + NatText(-n) else NatText(n)
  }

  /** The number a run of digits denotes. */
  function DigitsValue(s: string): nat
    requires AllDigits(s)
  {
    if s == "" then 0
    else 10 * DigitsValue(s[..|s| - 1]) + DigitValue(s[|s| - 1])
  }

  /** std::from_chars on the whole text, signed 64-bit: an optional minus, then digits, in range. */
  function ParseI64Exact(s: string): (r: Option<int>)
    ensures r.Some? ==> InI64(r.value)
  {
    var negative := s != "" && s[0] == '-';
    var digits := if negative then s[1..] else s;
    if digits == "" || !AllDigits(digits) then None
    else
      var v: int := DigitsValue(digits);
      var n := if negative then -v else v;
      if InI64(n) then Some(n) else None
  }

  /** std::from_chars on the whole text, unsigned 64-bit: digits only. */
  function ParseU64Exact(s: string): (r: Option<nat>)
    ensures r.Some? ==> r.value <= U64_MAX
  {
    if s == "" || !AllDigits(s) then None
    else
      var n := DigitsValue(s);
      if n <= U64_MAX then Some(n) else None
  }

  /** Printing then reading digits is the identity. */
  lemma {:induction false} NatTextValue(n: nat)
    ensures DigitsValue(NatText(n)) == n
  {
    if n >= 10 {
      NatTextValue(n / 10);
      var s := NatText(n);
      assert s[..|s| - 1] == NatText(n / 10);
    } else {
      var s := NatText(n);
      assert s[..0] == "";
      assert DigitsValue(s[..|s| - 1]) == 0;
    }
  }

  /** Every 64-bit integer, the minimum included, survives printing and parsing. */
  lemma I64RoundTrip(n: int)
    requires InI64(n)
    ensures ParseI64Exact(IntText(n)) == Some(n)
  {
    if n < 0 {
      NatTextValue(-n);
      assert IntText(n)[1..] == NatText(-n);
    } else {
      NatTextValue(n);
      assert IsDigit(NatText(n)[0]);
    }
  }

  lemma U64RoundTrip(n: nat)
    requires n <= U64_MAX
    ensures ParseU64Exact(NatText(n)) == Some(n)
  {
    NatTextValue(n);
  }

  /** A number below 10^d prints with at most d digits. */
  lemma {:induction false} NatTextWidth(n: nat, d: nat)
    requires 1 <= d && n < Pow10(d)
    ensures |NatText(n)| <= d
  {
    if n >= 10 {
      assert d > 1;
      NatTextWidth(n / 10, d - 1);
    }
  }

  function Pow10(d: nat): nat {
    if d == 0 then 1 else 10 * Pow10(d - 1)
  }

  /** A 64-bit integer prints with at most 20 characters. */
  lemma I64Width(n: int)
    requires InI64(n)
    ensures |IntText(n)| <= 20
  {
    assert Pow10(5) == 100_000;
    assert Pow10(10) == 10_000_000_000 by { assert Pow10(8) == 100_000_000; }
    assert Pow10(15) == 1_000_000_000_000_000 by { assert Pow10(13) == 10_000_000_000_000; }
    assert Pow10(19) == 10_000_000_000_000_000_000 by { assert Pow10(17) == 100_000_000_000_000_000; }
    NatTextWidth(if n < 0 then -n else n, 19);
  }

  // --- Which texts are numbers ----------------------------------------------------------------

  function Zeros(z: nat): string {
    seq(z, _ => '0')
  }

  lemma {:induction false} ZerosAdd(z: nat, s: string)
    requires AllDigits(s)
    ensures AllDigits(Zeros(z) + s) && DigitsValue(Zeros(z) + s) == DigitsValue(s)
    decreases z + |s|
  {
    var t := Zeros(z) + s;
    if s != "" {
      ZerosAdd(z, s[..|s| - 1]);
      assert t[..|t| - 1] == Zeros(z) + s[..|s| - 1];
    } else if z > 0 {
      ZerosAdd(z - 1, s);
      assert t[..|t| - 1] == Zeros(z - 1) + s;
    }
  }

  lemma {:induction false} DigitsForm(d: string) returns (z: nat)
    requires d != "" && AllDigits(d)
    ensures d == Zeros(z) + NatText(DigitsValue(d))
  {
    var front, c := d[..|d| - 1], d[|d| - 1];
    assert d == front + [c];
    DigitText(c);
    if front == "" {
      z := 0;
    } else {
      z := DigitsForm(front);
      var v := DigitsValue(front);
      if v == 0 {
        z := z + 1;
        assert Zeros(z) == front;
      }
    }
  }

  lemma DigitText(c: char)
    requires IsDigit(c)
    ensures Digit(DigitValue(c)) == c && NatText(DigitValue(c)) == [c]
  {
  }

  /** A text reads as a number if and only if it is that number as printed, with any zeros in front of its
      digits, and no plus sign or space; zero may carry a minus sign. */
  lemma NumberForms(s: string, n: int)
    ensures ParseI64Exact(s) == Some(n) <==>
            InI64(n) && exists z: nat ::
              || (n >= 0 && s == Zeros(z) + NatText(n))
              || (n <= 0 && s == "-" + Zeros(z) + NatText(-n))
  {
    hide NatText, DigitsValue, ParseI64Exact;
    if ParseI64Exact(s) == Some(n) { var _ := NumberIsPrinted(s, n); }
    if InI64(n) && exists z: nat :: n >= 0 && s == Zeros(z) + NatText(n) {
      var z: nat :| n >= 0 && s == Zeros(z) + NatText(n);
      ZeroedIsRead(z, n);
    }
    if InI64(n) && exists z: nat :: n <= 0 && s == "-" + Zeros(z) + NatText(-n) {
      var z: nat :| n <= 0 && s == "-" + Zeros(z) + NatText(-n);
      MinusIsRead(z, -n);
    }
  }

  lemma NumberIsPrinted(s: string, n: int) returns (z: nat)
    requires ParseI64Exact(s) == Some(n)
    ensures (n >= 0 && s == Zeros(z) + NatText(n)) || (n <= 0 && s == "-" + Zeros(z) + NatText(-n))
  {
    hide NatText, DigitsValue, Zeros;
    var digits := if s[0] == '-' then s[1..] else s;
    z := DigitsForm(digits);
    if s[0] == '-' { assert s == "-" + digits && "-" + Zeros(z) + NatText(-n) == "-" + (Zeros(z) + NatText(-n)); }
  }

  lemma ZeroedIsRead(z: nat, n: nat)
    requires InI64(n)
    ensures ParseI64Exact(Zeros(z) + NatText(n)) == Some(n)
  {
    hide NatText, DigitsValue, Zeros;
    ZerosAdd(z, NatText(n));
    NatTextValue(n);
    assert IsDigit((Zeros(z) + NatText(n))[0]);
  }

  lemma MinusIsRead(z: nat, n: nat)
    requires InI64(0 - n)
    ensures ParseI64Exact("-" + Zeros(z) + NatText(n)) == Some(0 - n)
  {
    hide NatText, DigitsValue, Zeros;
    ZerosAdd(z, NatText(n));
    NatTextValue(n);
    assert ("-" + Zeros(z) + NatText(n))[1..] == Zeros(z) + NatText(n);
  }

  lemma UnsignedForms(s: string, n: nat)
    ensures ParseU64Exact(s) == Some(n) <==> n <= U64_MAX && exists z: nat :: s == Zeros(z) + NatText(n)
  {
    hide NatText, DigitsValue;
    if ParseU64Exact(s) == Some(n) { var _ := DigitsForm(s); }
    if n <= U64_MAX && exists z: nat :: s == Zeros(z) + NatText(n) {
      var z: nat :| s == Zeros(z) + NatText(n);
      ZerosAdd(z, NatText(n));
      NatTextValue(n);
    }
  }
}
