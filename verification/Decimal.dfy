/** Decimal text of integers, and Rust's overflow-checked parse of an i64. */
module Decimal {
  import opened Machine
  import opened Outcomes

  predicate IsDigit(c: char) {
    '0' <= c <= '9'
  }

  predicate AllDigits(s: string) {
    forall i :: 0 <= i < |s| ==> IsDigit(s[i])
  }

  function DigitValue(c: char): (d: nat)
    requires IsDigit(c)
    ensures d < 10
  {
    c as int - '0' as int
  }

  function DigitChar(d: nat): (c: char)
    requires d < 10
    ensures IsDigit(c) && DigitValue(c) == d
  {
    ('0' as int + d) as char
  }

  /** The ten digits and what each is worth. */
  lemma Digits(d: nat)
    requires d < 10
    ensures DigitChar(d) == "0123456789"[d]
    ensures IsDigit("0123456789"[d]) && DigitValue("0123456789"[d]) == d
  {
  }

  // ---------------------------------------------------------------------
  // Printing.
  // ---------------------------------------------------------------------

  function ShowNat(n: nat): (s: string)
    ensures s != "" && AllDigits(s)
  {
    if n < 10 then [DigitChar(n)] else ShowNat(n / 10) + [DigitChar(n % 10)]
  }

  function ShowInt(v: int): (s: string)
    ensures s != ""
  {
    if v < 0 then "-" + ShowNat(-v) else ShowNat(v)
  }

  // ---------------------------------------------------------------------
  // The meaning of a numeral.
  // ---------------------------------------------------------------------

  /** Positional value: each digit weighs ten times its right neighbour. */
  function DigitsValue(s: string): nat
    requires AllDigits(s)
  {
    if s == "" then 0 else 10 * DigitsValue(s[..|s| - 1]) + DigitValue(s[|s| - 1])
  }

  predicate HasSign(s: string) {
    s != "" && (s[0] == '+' || s[0] == '-')
  }

  function Magnitude(s: string): string {
    if HasSign(s) then s[1..] else s
  }

  /** An optional sign and at least one digit. */
  predicate IsNumeral(s: string) {
    Magnitude(s) != "" && AllDigits(Magnitude(s))
  }

  function NumeralValue(s: string): int
    requires IsNumeral(s)
  {
    var m: int := DigitsValue(Magnitude(s));
    if s[0] == '-' then -m else m
  }

  // ---------------------------------------------------------------------
  // str::parse::<i64>: digit by digit, every operation checked.
  // ---------------------------------------------------------------------

  function Checked(x: int): Option<I64> {
    if I64_MIN <= x <= I64_MAX then Some(x as I64) else None
  }

  function CheckedMul(a: I64, b: I64): Option<I64> {
    Checked(a as int * b as int)
  }

  function CheckedAdd(a: I64, b: I64): Option<I64> {
    Checked(a as int + b as int)
  }

  function CheckedSub(a: I64, b: I64): Option<I64> {
    Checked(a as int - b as int)
  }

  /** Non-negative numbers grow upwards, negative ones downwards, so that the
      one value whose magnitude does not fit is still reachable. */
  function Accumulate(acc: I64, digits: string, negative: bool): Option<I64>
    decreases digits
  {
    if digits == "" then Some(acc)
    else if !IsDigit(digits[0]) then None
    else
      var scaled :- CheckedMul(acc, 10);
      var digit := DigitValue(digits[0]) as I64;
      var next :- if negative then CheckedSub(scaled, digit) else CheckedAdd(scaled, digit);
      Accumulate(next, digits[1..], negative)
  }

  function ParseI64(s: string): Option<I64> {
    if s == "" then None
    else if |s| == 1 && HasSign(s) then None
    else if s[0] == '-' then Accumulate(0, s[1..], true)
    else if s[0] == '+' then Accumulate(0, s[1..], false)
    else Accumulate(0, s, false)
  }

  /** What acc becomes, in unbounded arithmetic, after the digits. */
  function Horner(acc: int, digits: string): int
    requires AllDigits(digits)
    decreases digits
  {
    if digits == "" then acc else Horner(10 * acc + DigitValue(digits[0]), digits[1..])
  }

  lemma {:induction false} HornerGrows(acc: nat, digits: string)
    requires AllDigits(digits)
    ensures Horner(acc, digits) >= acc
    decreases digits
  {
    if digits != "" {
      HornerGrows(10 * acc + DigitValue(digits[0]), digits[1..]);
    }
  }

  lemma {:induction false} HornerAppend(acc: int, digits: string, c: char)
    requires AllDigits(digits) && IsDigit(c)
    ensures AllDigits(digits + [c])
    ensures Horner(acc, digits + [c]) == 10 * Horner(acc, digits) + DigitValue(c)
    decreases digits
  {
    if digits != "" {
      assert (digits + [c])[1..] == digits[1..] + [c];
      HornerAppend(10 * acc + DigitValue(digits[0]), digits[1..], c);
    } else {
      assert (digits + [c])[1..] == "";
    }
  }

  lemma {:induction false} HornerIsPositional(digits: string)
    requires AllDigits(digits)
    ensures Horner(0, digits) == DigitsValue(digits)
  {
    if digits != "" {
      var n := |digits| - 1;
      HornerIsPositional(digits[..n]);
      HornerAppend(0, digits[..n], digits[n]);
      assert digits == digits[..n] + [digits[n]];
    }
  }

  /** The checked accumulation succeeds exactly when the final value fits:
      magnitudes only grow, so an overflow on the way is an overflow at the
      end. */
  lemma {:induction false} AccumulateExact(acc: I64, digits: string, negative: bool)
    requires if negative then acc <= 0 else acc >= 0
    ensures !AllDigits(digits) ==> Accumulate(acc, digits, negative) == None
    ensures AllDigits(digits) ==>
              Accumulate(acc, digits, negative) ==
              if negative then Checked(-Horner(-(acc as int), digits)) else Checked(Horner(acc as int, digits))
    decreases digits
  {
    if digits != "" && IsDigit(digits[0]) {
      assert AllDigits(digits) <==> AllDigits(digits[1..]) by {
        assert digits == [digits[0]] + digits[1..];
      }
      hide AllDigits;
      var magnitude := if negative then -(acc as int) else acc as int;
      var d := DigitValue(digits[0]);
      var next := 10 * magnitude + d;
      if AllDigits(digits) {
        HornerGrows(next, digits[1..]);
      }
      if negative && -next >= I64_MIN {
        AccumulateExact((-next) as I64, digits[1..], negative);
      } else if !negative && next <= I64_MAX {
        AccumulateExact(next as I64, digits[1..], negative);
      }
    }
  }

  /** ParseI64 accepts exactly the numerals whose value fits in 64 bits, and
      returns that value. */
  lemma ParseExact(s: string)
    ensures ParseI64(s).Some? <==> IsNumeral(s) && I64_MIN <= NumeralValue(s) <= I64_MAX
    ensures ParseI64(s).Some? ==> ParseI64(s).value as int == NumeralValue(s)
  {
    if s != "" {
      var m := Magnitude(s);
      AccumulateExact(0, m, s[0] == '-');
      if AllDigits(m) {
        HornerIsPositional(m);
      }
    }
  }

  lemma {:induction false} ShowNatValue(n: nat)
    ensures DigitsValue(ShowNat(n)) == n
  {
    var s := ShowNat(n);
    if n >= 10 {
      ShowNatValue(n / 10);
      assert s[..|s| - 1] == ShowNat(n / 10);
    } else {
      assert s[..|s| - 1] == "";
    }
  }

  lemma ShowIntNumeral(v: int)
    ensures IsNumeral(ShowInt(v)) && NumeralValue(ShowInt(v)) == v
  {
    if v < 0 {
      ShowNatValue(-v);
      assert Magnitude(ShowInt(v)) == ShowNat(-v);
    } else {
      ShowNatValue(v);
      assert Magnitude(ShowInt(v)) == ShowNat(v);
    }
  }

  /** Parsing inverts printing on all of i64, both extremes included. */
  lemma ParseShow(v: I64)
    ensures ParseI64(ShowInt(v as int)) == Some(v)
  {
    ParseExact(ShowInt(v as int));
    ShowIntNumeral(v as int);
  }

  lemma ShowNatInjective(m: nat, n: nat)
    ensures ShowNat(m) == ShowNat(n) <==> m == n
  {
    ShowNatValue(m);
    ShowNatValue(n);
  }

  /** Only zero is printed with a leading zero; so a number's text is the one
      digit string of its value that has none. */
  lemma {:induction false} NoLeadingZero(n: nat)
    ensures ShowNat(n)[0] == '0' <==> n == 0
    ensures n == 0 ==> ShowNat(n) == "0"
  {
    if n >= 10 {
      NoLeadingZero(n / 10);
    }
  }

  /** The leftmost digit weighs a power of ten. */
  lemma {:induction false} FirstDigitWeighs(s: string)
    requires AllDigits(s) && s != ""
    ensures DigitsValue(s) == DigitValue(s[0]) * Power10(|s| - 1) + DigitsValue(s[1..])
  {
    var n := |s| - 1;
    if n > 0 {
      FirstDigitWeighs(s[..n]);
      assert s[1..][..n - 1] == s[..n][1..];
      Scale(DigitValue(s[0]), Power10(n - 1));
      hide DigitValue, Power10;
    }
  }

  lemma Scale(x: nat, y: nat)
    ensures 10 * (x * y) == x * (10 * y)
  {
  }

  function Power10(k: nat): nat {
    if k == 0 then 1 else 10 * Power10(k - 1)
  }

  /** Printing adds one digit at the end. */
  lemma ShowNatStep(q: nat, d: nat)
    requires d < 10
    ensures ShowNat(d) == ["0123456789"[d]]
    ensures q > 0 ==> ShowNat(10 * q + d) == ShowNat(q) + ["0123456789"[d]]
  {
    Digits(d);
    assert (10 * q + d) / 10 == q && (10 * q + d) % 10 == d;
  }

  /** A timestamp of the source's tests. */
  lemma TimestampLiteral()
    ensures ShowInt(1680000000) == "1680000000" && ParseI64("1680000000") == Some(1680000000)
  {
    hide ShowNat, ParseI64;
    ShowNatStep(0, 1);
    ShowNatStep(1, 6);
    ShowNatStep(16, 8);
    ShowNatStep(168, 0);
    ShowNatStep(1680, 0);
    ShowNatStep(16800, 0);
    ShowNatStep(168000, 0);
    ShowNatStep(1680000, 0);
    ShowNatStep(16800000, 0);
    ShowNatStep(168000000, 0);
    ParseShow(1680000000);
  }

  lemma SmallLiterals()
    ensures ShowInt(-12) == "-12" && ParseI64("-12") == Some(-12)
    ensures ShowInt(0) == "0" && ParseI64("0") == Some(0)
  {
    hide ShowNat, ParseI64;
    ShowNatStep(0, 0);
    ShowNatStep(0, 1);
    ShowNatStep(1, 2);
    ParseShow(-12);
    ParseShow(0);
  }

  /** The characters of printed numbers. */
  predicate IsNumberChar(c: char) {
    IsDigit(c) || c == '-'
  }

  lemma ShowIntChars(v: int)
    ensures forall i :: 0 <= i < |ShowInt(v)| ==> IsNumberChar(ShowInt(v)[i])
  {
  }
}
