/** The 32-bit shift register of CRC-32: one word, XOR, and one shift step.
    Everything about individual bits of a word is proved here, so that Crc32
    can reason about registers without looking inside them. */
module Words {
  datatype Register = Register(word: bv32)

  /** The reflected generator polynomial of section 8 of RFC 1952. */
  const POLYNOMIAL: bv32 := 0xEDB8_8320

  const ZERO: Register := Register(0)
  const ONES: Register := Register(0xFFFF_FFFF)

  function Xor(a: Register, b: Register): Register {
    Register(a.word ^ b.word)
  }

  function Flag(b: bool): Register {
    Register(if b then 1 else 0)
  }

  function Half(r: Register): Register {
    Register(r.word >> 1)
  }

  function Double(r: Register): Register {
    Register(r.word << 1)
  }

  predicate Odd(r: Register) {
    r.word & 1 == 1
  }

  predicate HasTopBit(r: Register) {
    0x8000_0000 <= r.word
  }

  /** One shift: the bit that falls out decides whether the polynomial is
      subtracted. */
  function Shift(r: Register): Register {
    if Odd(r) then Xor(Half(r), Register(POLYNOMIAL)) else Half(r)
  }

  function LowByte(r: Register): Register {
    Register(r.word & 0xFF)
  }

  function HighBytes(r: Register): Register {
    Register(r.word >> 8)
  }

  function Halved(r: Register, n: nat): Register
    decreases n
  {
    if n == 0 then r else Halved(Half(r), n - 1)
  }

  /** r has a one at bit k or above. */
  predicate Reaches(r: Register, k: nat) {
    Halved(r, k) != ZERO
  }

  // ---------------------------------------------------------------------
  // XOR is a commutative group in which every element is its own inverse.
  // ---------------------------------------------------------------------

  lemma XorAssociative(a: Register, b: Register, c: Register)
    ensures Xor(Xor(a, b), c) == Xor(a, Xor(b, c))
  {
  }

  lemma XorCommutative(a: Register, b: Register)
    ensures Xor(a, b) == Xor(b, a)
  {
  }

  lemma XorZero(a: Register)
    ensures Xor(a, ZERO) == a && Xor(ZERO, a) == a
  {
  }

  lemma XorIsZero(a: Register, b: Register)
    ensures Xor(a, b) == ZERO <==> a == b
  {
  }

  lemma XorInterchange(a: Register, b: Register, c: Register, d: Register)
    ensures Xor(Xor(a, b), Xor(c, d)) == Xor(Xor(a, c), Xor(b, d))
  {
    hide Xor;
    XorAssociative(a, b, Xor(c, d));
    XorAssociative(b, c, d);
    XorCommutative(b, c);
    XorAssociative(c, b, d);
    XorAssociative(a, c, Xor(b, d));
  }

  lemma XorCancelsTwice(a: Register, b: Register, c: Register)
    ensures Xor(Xor(a, c), Xor(b, c)) == Xor(a, b)
  {
    hide Xor;
    XorInterchange(a, c, b, c);
    XorIsZero(c, c);
    XorZero(Xor(a, b));
  }

  lemma XorCancels(a: Register, b: Register, c: Register)
    ensures Xor(a, c) == Xor(b, c) <==> a == b
  {
  }

  lemma XorRestores(a: Register, b: Register)
    ensures Xor(a, Xor(a, b)) == b
  {
  }

  lemma XorUndone(a: Register, b: Register)
    ensures Xor(Xor(a, b), b) == a
  {
  }

  lemma XorFlags(a: bool, b: bool)
    ensures Xor(Flag(a), Flag(b)) == Flag(a != b)
  {
  }

  // ---------------------------------------------------------------------
  // The shift.
  // ---------------------------------------------------------------------

  lemma XorHalves(a: Register, b: Register)
    ensures Half(Xor(a, b)) == Xor(Half(a), Half(b))
  {
  }

  lemma XorOdd(a: Register, b: Register)
    ensures Odd(Xor(a, b)) <==> (Odd(a) != Odd(b))
  {
  }

  /** Shifting is linear over XOR. */
  lemma ShiftIsLinear(a: Register, b: Register)
    ensures Shift(Xor(a, b)) == Xor(Shift(a), Shift(b))
  {
    hide Xor, Half, Odd;
    XorHalves(a, b);
    XorOdd(a, b);
    var p := Register(POLYNOMIAL);
    XorCancelsTwice(Half(a), Half(b), p);
    XorAssociative(Half(a), Half(b), p);
    XorAssociative(Half(a), p, Half(b));
    XorCommutative(p, Half(b));
  }

  /** Only zero shifts to zero: the polynomial's top bit marks the odd words. */
  lemma ShiftNonzero(d: Register)
    ensures Shift(d) == ZERO <==> d == ZERO
  {
  }

  /** Shifting is a bijection. */
  lemma ShiftIsInjective(a: Register, b: Register)
    ensures Shift(a) == Shift(b) <==> a == b
  {
    hide Shift, Xor;
    ShiftIsLinear(a, b);
    XorIsZero(Shift(a), Shift(b));
    XorIsZero(a, b);
    ShiftNonzero(Xor(a, b));
  }

  /** The register before a shift: a top bit can only come from the polynomial. */
  function Unshift(r: Register): Register {
    if HasTopBit(r) then Xor(Double(Xor(r, Register(POLYNOMIAL))), Flag(true)) else Double(r)
  }

  /** Shifting is a bijection: every register is shifted to, from exactly one. */
  lemma ShiftIsBijective(r: Register)
    ensures Shift(Unshift(r)) == r && Unshift(Shift(r)) == r
  {
    UnshiftThenShift(r);
    UnshiftThenShift(Shift(r));
    hide Shift, Unshift;
    ShiftIsInjective(Unshift(Shift(r)), r);
  }

  lemma UnshiftThenShift(r: Register)
    ensures Shift(Unshift(r)) == r
  {
    var x := Xor(r, Register(POLYNOMIAL));
    if HasTopBit(r) {
      TopBitTaken(r);
      DoublePlusOne(x);
      XorUndone(r, Register(POLYNOMIAL));
    } else {
      ShiftDouble(r);
    }
    hide Xor, Double, HasTopBit, Half, Odd;
  }

  lemma TopBitTaken(r: Register)
    requires HasTopBit(r)
    ensures !HasTopBit(Xor(r, Register(POLYNOMIAL)))
  {
  }

  lemma DoublePlusOne(x: Register)
    requires !HasTopBit(x)
    ensures Odd(Xor(Double(x), Flag(true))) && Half(Xor(Double(x), Flag(true))) == x
  {
  }

  lemma HalfIgnoresLastBit(d: Register, e: bool)
    ensures Half(Xor(d, Flag(e))) == Half(d)
  {
  }

  lemma PolynomialSetsTopBit(r: Register)
    ensures HasTopBit(Xor(Half(r), Register(POLYNOMIAL)))
  {
  }

  /** After a shift, either the polynomial has set the top bit or the word has
      merely been halved, whatever its last bit was changed to. */
  lemma ShiftHalvesOrSetsTop(d: Register, e: bool)
    ensures var s := Shift(Xor(d, Flag(e))); s == Half(d) || HasTopBit(s)
  {
    hide Xor, Half, Odd, HasTopBit;
    HalfIgnoresLastBit(d, e);
    PolynomialSetsTopBit(Xor(d, Flag(e)));
  }

  lemma EightHalves(r: Register)
    ensures Half(Half(Half(Half(Half(Half(Half(Half(r)))))))) == HighBytes(r)
  {
  }

  lemma HalvedByEight(r: Register, n: nat)
    ensures Halved(r, n + 8) == Halved(HighBytes(r), n)
  {
    hide Half, HighBytes;
    EightHalves(r);
    var r4 := Half(Half(Half(Half(r))));
    assert Halved(r, n + 8) == Halved(Half(Half(r)), n + 6) == Halved(r4, n + 4);
    assert Halved(r4, n + 4) == Halved(Half(Half(r4)), n + 2);
  }

  lemma TopBytes(r: Register)
    requires HasTopBit(r)
    ensures var s := HighBytes(HighBytes(HighBytes(r))).word; 0x80 <= s <= 0xFF
  {
  }

  lemma SevenHalves(s: Register)
    requires 0x80 <= s.word <= 0xFF
    ensures Half(Half(Half(Half(Half(Half(Half(s))))))) != ZERO
  {
  }

  lemma TopBitReachesLast(r: Register)
    requires HasTopBit(r)
    ensures Halved(r, 31) != ZERO
  {
    hide Half, HighBytes;
    TopBytes(r);
    HalvedByEight(r, 23);
    HalvedByEight(HighBytes(r), 15);
    var s := HighBytes(HighBytes(HighBytes(r)));
    HalvedByEight(HighBytes(HighBytes(r)), 7);
    SevenHalves(s);
    var s3 := Half(Half(Half(s)));
    assert Halved(s, 7) == Halved(Half(s), 6) == Halved(s3, 4) == Halved(Half(Half(s3)), 2);
  }

  lemma {:induction false} HalvedLonger(r: Register, m: nat, n: nat)
    requires m <= n && Halved(r, n) != ZERO
    ensures Halved(r, m) != ZERO
    decreases n
  {
    hide Half;
    if m == 0 {
      if r == ZERO {
        HalvedZero(n);
      }
    } else {
      HalvedLonger(Half(r), m - 1, n - 1);
    }
  }

  lemma HalfOfZero()
    ensures Half(ZERO) == ZERO
  {
  }

  lemma {:induction false} HalvedZero(n: nat)
    ensures Halved(ZERO, n) == ZERO
  {
    hide Half;
    if n > 0 {
      HalfOfZero();
      HalvedZero(n - 1);
    }
  }

  lemma TopBitReaches(r: Register, k: nat)
    requires k <= 31 && HasTopBit(r)
    ensures Reaches(r, k)
  {
    TopBitReachesLast(r);
    HalvedLonger(r, k, 31);
  }

  lemma ReachesIsNonzero(r: Register, k: nat)
    requires Reaches(r, k)
    ensures r != ZERO
  {
    HalvedZero(k);
  }

  lemma ShiftedOneHasTopBit()
    ensures HasTopBit(Shift(Flag(true)))
  {
  }

  /** A word that reaches bit k reaches bit k - 1 after a shift, whatever its
      last bit was changed to. */
  lemma ShiftKeepsReach(d: Register, k: nat, e: bool)
    requires 1 <= k <= 32 && Reaches(d, k)
    ensures Reaches(Shift(Xor(d, Flag(e))), k - 1)
  {
    hide Shift, Xor, Half, HasTopBit;
    ShiftHalvesOrSetsTop(d, e);
    if HasTopBit(Shift(Xor(d, Flag(e)))) {
      TopBitReaches(Shift(Xor(d, Flag(e))), k - 1);
    }
  }

  // ---------------------------------------------------------------------
  // Words built from bits.
  // ---------------------------------------------------------------------

  lemma ShiftDouble(w: Register)
    requires !HasTopBit(w)
    ensures Shift(Double(w)) == w
  {
  }

  lemma HalfPrepend(bit: bool, w: Register)
    requires !HasTopBit(w)
    ensures Half(Xor(Flag(bit), Double(w))) == w
  {
  }

  /** The word with lowest bit `bit` and the bits of w above it. */
  function Prepend(bit: bool, w: Register): Register {
    Xor(Flag(bit), Double(w))
  }

  /** A word of fewer than k bits has room for one more below. */
  lemma PrependBound(bit: bool, w: Register, k: nat)
    requires 1 <= k <= 32 && !Reaches(w, k - 1)
    ensures !HasTopBit(w)
    ensures !Reaches(Prepend(bit, w), k)
  {
    hide Half, Xor, Double, HasTopBit;
    if HasTopBit(w) {
      TopBitReaches(w, k - 1);
    }
    HalfPrepend(bit, w);
  }

  /** Shifting a register that had a word XORed in releases the word's lowest
      bit; the rest of the word waits. */
  lemma ShiftReleasesBit(r: Register, bit: bool, w: Register)
    requires !HasTopBit(w)
    ensures Shift(Xor(r, Prepend(bit, w))) == Xor(Shift(Xor(r, Flag(bit))), w)
  {
    hide Shift, Xor, Double, HasTopBit;
    XorAssociative(r, Flag(bit), Double(w));
    ShiftIsLinear(Xor(r, Flag(bit)), Double(w));
    ShiftDouble(w);
  }

  // ---------------------------------------------------------------------
  // The low byte, for the table form.
  // ---------------------------------------------------------------------

  /** The register with its low byte cleared. */
  function Cleared(r: Register): Register {
    Double(Double(Double(Double(Double(Double(Double(Double(HighBytes(r)))))))))
  }

  lemma SplitLowByte(x: Register)
    ensures x == Xor(LowByte(x), Cleared(x))
  {
  }

  function Shift8(r: Register): Register {
    Shift(Shift(Shift(Shift(Shift(Shift(Shift(Shift(r))))))))
  }

  lemma Shift8Cleared(x: Register)
    ensures Shift8(Cleared(x)) == HighBytes(x)
  {
  }

  lemma Shift8IsLinear(a: Register, b: Register)
    ensures Shift8(Xor(a, b)) == Xor(Shift8(a), Shift8(b))
  {
    hide Shift, Xor;
    var a1, b1 := Shift(a), Shift(b);
    var a2, b2 := Shift(a1), Shift(b1);
    var a3, b3 := Shift(a2), Shift(b2);
    var a4, b4 := Shift(a3), Shift(b3);
    var a5, b5 := Shift(a4), Shift(b4);
    var a6, b6 := Shift(a5), Shift(b5);
    var a7, b7 := Shift(a6), Shift(b6);
    ShiftIsLinear(a, b);
    ShiftIsLinear(a1, b1);
    ShiftIsLinear(a2, b2);
    ShiftIsLinear(a3, b3);
    ShiftIsLinear(a4, b4);
    ShiftIsLinear(a5, b5);
    ShiftIsLinear(a6, b6);
    ShiftIsLinear(a7, b7);
  }

  lemma HighBytesUntouched(r: Register, w: Register)
    requires !Reaches(w, 8)
    ensures HighBytes(Xor(r, w)) == HighBytes(r)
  {
  }

  /** Eight shifts at once: look the low byte up, move the other three down. */
  lemma TableStep(x: Register)
    ensures Shift8(x) == Xor(Shift8(LowByte(x)), HighBytes(x))
  {
    hide Shift8, Xor, Cleared, LowByte, HighBytes;
    SplitLowByte(x);
    Shift8IsLinear(LowByte(x), Cleared(x));
    Shift8Cleared(x);
  }

  // ---------------------------------------------------------------------
  // Emptying the register.
  // ---------------------------------------------------------------------

  /** XORing a register's own last bit in and shifting only halves it. */
  lemma OwnBitShiftsOut(r: Register)
    ensures Shift(Xor(r, Flag(Odd(r)))) == Half(r)
  {
  }

  lemma ZeroShiftsToZero()
    ensures Shift(Xor(ZERO, Flag(false))) == ZERO
  {
  }

  lemma HalvedThroughout(r: Register)
    ensures Halved(r, 32) == ZERO
  {
    hide Half, HighBytes;
    HalvedByEight(r, 24);
    HalvedByEight(HighBytes(r), 16);
    HalvedByEight(HighBytes(HighBytes(r)), 8);
    HalvedByEight(HighBytes(HighBytes(HighBytes(r))), 0);
    FourBytesInAll(r);
  }

  lemma FourBytesInAll(r: Register)
    ensures HighBytes(HighBytes(HighBytes(HighBytes(r)))) == ZERO
  {
  }

  /** A register is its last bit below its upper half. */
  lemma PrependHalf(r: Register)
    ensures Prepend(Odd(r), Half(r)) == r
  {
  }

  // ---------------------------------------------------------------------
  // Registers as numbers.
  // ---------------------------------------------------------------------

  function Number(r: Register): nat {
    r.word as nat
  }

  function FromNumber(n: nat): Register
    requires n < 0x1_0000_0000
  {
    Register(n as bv32)
  }

  /** The number of a register is twice its upper half's, and one more if odd. */
  lemma NumberHalves(r: Register)
    ensures Number(r) == 2 * Number(Half(r)) + (if Odd(r) then 1 else 0)
  {
    hide Number, Half, Odd, Prepend;
    PrependHalf(r);
    HalfHasNoTopBit(r);
    NumberOfPrepended(Odd(r), Half(r));
  }

  lemma HalfHasNoTopBit(r: Register)
    ensures !HasTopBit(Half(r))
  {
  }

  lemma NumberOfPrepended(bit: bool, w: Register)
    requires !HasTopBit(w)
    ensures Number(Prepend(bit, w)) == 2 * Number(w) + (if bit then 1 else 0)
  {
    hide Number, Prepend;
    PrependedWord(w);
    DoubledNumber(w);
  }

  lemma PrependedWord(w: Register)
    ensures Prepend(false, w) == Register(w.word << 1)
    ensures Prepend(true, w) == Register((w.word << 1) | 1)
  {
  }

  lemma DoubledNumber(w: Register)
    requires !HasTopBit(w)
    ensures Number(Register(w.word << 1)) == 2 * Number(w)
    ensures Number(Register((w.word << 1) | 1)) == 2 * Number(w) + 1
  {
    DoubledWord(w.word);
  }

  lemma DoubledWord(h: bv32)
    requires h < 0x8000_0000
    ensures (h << 1) as nat == 2 * (h as nat)
    ensures ((h << 1) | 1) as nat == 2 * (h as nat) + 1
  {
  }

  lemma NumberOfZero()
    ensures Number(ZERO) == 0
  {
  }

  lemma NumberInjective(a: Register, b: Register)
    ensures Number(a) == Number(b) <==> a == b
  {
    if Number(a) == Number(b) {
      WordNumberInjective(a.word, b.word);
    }
  }

  lemma WordNumberInjective(a: bv32, b: bv32)
    requires a as nat == b as nat
    ensures a == b
  {
    assert (a as nat) as bv32 == a;
    assert (b as nat) as bv32 == b;
  }

  /** A low byte is a table index. */
  lemma LowByteNumber(r: Register)
    ensures Number(LowByte(r)) < 256
    ensures FromNumber(Number(LowByte(r))) == LowByte(r)
  {
    LowByteFits(r);
    hide LowByte;
    SmallNumber(LowByte(r).word);
    NumberWord(LowByte(r).word);
  }

  lemma LowByteFits(r: Register)
    ensures LowByte(r).word <= 0xFF
  {
  }

  lemma SmallNumber(w: bv32)
    requires w <= 0xFF
    ensures w as nat < 256
  {
  }

  lemma NumberWord(w: bv32)
    ensures (w as nat) as bv32 == w
  {
    assert (w as nat) as bv32 == w;
  }
}
