/** CRC-32 as section 8 of RFC 1952 defines it, and exactly how far it tells two
    bodies of one length apart. A body is also read as a stream of bits, least
    significant bit of each byte first. */
module Crc32 {
  import opened Machine
  import opened Words

  /** The bits of a byte, least significant first. */
  function Bits(b: Byte): (bits: seq<bool>)
    ensures |bits| == 8
  {
    LowBits(b as nat, 8)
  }

  function LowBits(n: nat, k: nat): (bits: seq<bool>)
    ensures |bits| == k
  {
    if k == 0 then [] else [n % 2 == 1] + LowBits(n / 2, k - 1)
  }

  /** The register whose low bits are `bits`. */
  function Word(bits: seq<bool>): Register {
    if bits == [] then ZERO else Prepend(bits[0], Word(bits[1..]))
  }

  function AbsorbByte(r: Register, b: Byte): Register {
    Shift8(Xor(r, Word(Bits(b))))
  }

  function Absorb(r: Register, body: Bytes): Register
    decreases body
  {
    if body == [] then r else Absorb(AbsorbByte(r, body[0]), body[1..])
  }

  /** The CRC-32 of a body. */
  function Checksum(body: Bytes): Register {
    Xor(Absorb(ONES, body), ONES)
  }

  // ---------------------------------------------------------------------
  // Bytes and bits.
  // ---------------------------------------------------------------------

  function BodyBits(body: Bytes): (bits: seq<bool>)
    ensures |bits| == 8 * |body|
  {
    if body == [] then [] else Bits(body[0]) + BodyBits(body[1..])
  }

  function Value(bits: seq<bool>): nat {
    if bits == [] then 0 else Bit(bits[0]) + 2 * Value(bits[1..])
  }

  function Bit(b: bool): nat {
    if b then 1 else 0
  }

  function TwoTo(k: nat): nat {
    if k == 0 then 1 else 2 * TwoTo(k - 1)
  }

  lemma {:induction false} ValueOfLowBits(n: nat, k: nat)
    requires n < TwoTo(k)
    ensures Value(LowBits(n, k)) == n
  {
    if k > 0 {
      ValueOfLowBits(n / 2, k - 1);
    }
  }

  lemma {:induction false} LowBitsOfValue(bits: seq<bool>)
    ensures Value(bits) < TwoTo(|bits|)
    ensures LowBits(Value(bits), |bits|) == bits
  {
    if bits != [] {
      LowBitsOfValue(bits[1..]);
      var v := Value(bits);
      assert v / 2 == Value(bits[1..]) && (v % 2 == 1 <==> bits[0]);
      assert bits == [bits[0]] + bits[1..];
    }
  }

  lemma BitsInjective(a: Byte, b: Byte)
    requires Bits(a) == Bits(b)
    ensures a == b
  {
    assert TwoTo(8) == 256;
    ValueOfLowBits(a as nat, 8);
    ValueOfLowBits(b as nat, 8);
  }

  function ByteOf(bits: seq<bool>): (b: Byte)
    requires |bits| == 8
    ensures Bits(b) == bits
  {
    LowBitsOfValue(bits);
    assert TwoTo(8) == 256;
    Value(bits) as Byte
  }

  lemma {:induction false} BodyBitsInjective(a: Bytes, b: Bytes)
    requires BodyBits(a) == BodyBits(b)
    ensures a == b
  {
    hide Bits;
    if a != [] {
      assert Bits(a[0]) == BodyBits(a)[..8] && Bits(b[0]) == BodyBits(b)[..8];
      BitsInjective(a[0], b[0]);
      assert BodyBits(a[1..]) == BodyBits(a)[8..] && BodyBits(b[1..]) == BodyBits(b)[8..];
      BodyBitsInjective(a[1..], b[1..]);
      assert a == [a[0]] + a[1..] && b == [b[0]] + b[1..];
    }
  }

  /** Bit k of the stream is bit k % 8 of byte k / 8. */
  lemma {:induction false} BodyBitAt(body: Bytes, i: nat, j: nat)
    requires i < |body| && j < 8
    ensures BodyBits(body)[8 * i + j] == Bits(body[i])[j]
  {
    hide Bits;
    if i > 0 {
      BodyBitAt(body[1..], i - 1, j);
    }
  }

  // ---------------------------------------------------------------------
  // The bit-serial form.
  // ---------------------------------------------------------------------

  function AbsorbBit(r: Register, b: bool): Register {
    Shift(Xor(r, Flag(b)))
  }

  function AbsorbBits(r: Register, bits: seq<bool>): Register
    decreases bits
  {
    if bits == [] then r else AbsorbBits(AbsorbBit(r, bits[0]), bits[1..])
  }

  function Shifted(r: Register, n: nat): Register
    decreases n
  {
    if n == 0 then r else Shifted(Shift(r), n - 1)
  }

  lemma {:induction false} WordBound(bits: seq<bool>)
    requires |bits| <= 32
    ensures !Reaches(Word(bits), |bits|)
  {
    hide Reaches, Prepend;
    if bits == [] {
      ZeroReachesNothing();
    } else {
      WordBound(bits[1..]);
      PrependBound(bits[0], Word(bits[1..]), |bits|);
    }
  }

  lemma ZeroReachesNothing()
    ensures !Reaches(ZERO, 0)
  {
  }

  /** XORing a word in and then shifting is the same as feeding its bits in one
      at a time. */
  lemma {:induction false} WordIsSerial(r: Register, bits: seq<bool>)
    requires |bits| <= 32
    ensures Shifted(Xor(r, Word(bits)), |bits|) == AbsorbBits(r, bits)
    decreases bits
  {
    hide Shift, Xor, Prepend, Reaches, HasTopBit, Flag;
    if bits == [] {
      XorZero(r);
    } else {
      var w := Word(bits[1..]);
      WordBound(bits[1..]);
      PrependBound(bits[0], w, |bits|);
      ShiftReleasesBit(r, bits[0], w);
      WordIsSerial(AbsorbBit(r, bits[0]), bits[1..]);
    }
  }

  lemma Shifted8(x: Register)
    ensures Shifted(x, 8) == Shift8(x)
  {
  }

  lemma ByteIsSerial(r: Register, b: Byte)
    ensures AbsorbByte(r, b) == AbsorbBits(r, Bits(b))
  {
    hide Shift8, Xor, Word, Bits, AbsorbBits, Shifted;
    WordIsSerial(r, Bits(b));
    Shifted8(Xor(r, Word(Bits(b))));
  }

  lemma {:induction false} BitsConcat(r: Register, x: seq<bool>, y: seq<bool>)
    ensures AbsorbBits(r, x + y) == AbsorbBits(AbsorbBits(r, x), y)
    decreases x
  {
    hide AbsorbBit;
    if x == [] {
      assert x + y == y;
    } else {
      assert (x + y)[1..] == x[1..] + y;
      BitsConcat(AbsorbBit(r, x[0]), x[1..], y);
    }
  }

  /** Byte by byte or bit by bit, the register ends the same. */
  lemma {:induction false} BytesAreSerial(r: Register, body: Bytes)
    ensures Absorb(r, body) == AbsorbBits(r, BodyBits(body))
    decreases body
  {
    hide AbsorbByte, Bits;
    if body != [] {
      ByteIsSerial(r, body[0]);
      BitsConcat(r, Bits(body[0]), BodyBits(body[1..]));
      BytesAreSerial(AbsorbByte(r, body[0]), body[1..]);
    }
  }

  /** The checksum can be computed piece by piece. */
  lemma {:induction false} Incremental(r: Register, x: Bytes, y: Bytes)
    ensures Absorb(r, x + y) == Absorb(Absorb(r, x), y)
    decreases x
  {
    hide AbsorbByte;
    if x == [] {
      assert x + y == y;
    } else {
      assert (x + y)[1..] == x[1..] + y;
      Incremental(AbsorbByte(r, x[0]), x[1..], y);
    }
  }

  // ---------------------------------------------------------------------
  // The table form: one lookup a byte.
  // ---------------------------------------------------------------------

  ghost predicate IsTable(table: seq<Register>) {
    |table| == 256 && forall n :: 0 <= n < 256 ==> table[n] == Shift8(FromNumber(n))
  }

  /** The 256 words, each one eight shifts of its own index. */
  method MakeTable() returns (table: seq<Register>)
    ensures IsTable(table)
  {
    hide Shift, Shift8;
    table := [];
    for n := 0 to 256
      invariant |table| == n
      invariant forall m :: 0 <= m < n ==> table[m] == Shift8(FromNumber(m))
    {
      var c := FromNumber(n);
      for k := 0 to 8
        invariant Shifted(c, 8 - k) == Shifted(FromNumber(n), 8)
      {
        c := Shift(c);
      }
      Shifted8(FromNumber(n));
      table := table + [c];
    }
  }

  /** One lookup and one XOR absorb a byte. */
  lemma LookupIsByteStep(table: seq<Register>, r: Register, b: Byte)
    requires IsTable(table)
    ensures Number(LowByte(Xor(r, Word(Bits(b))))) < 256
    ensures Xor(table[Number(LowByte(Xor(r, Word(Bits(b)))))], HighBytes(r)) == AbsorbByte(r, b)
  {
    hide Shift8, Xor, LowByte, HighBytes, Word, Bits, Reaches, Number, FromNumber;
    var w := Word(Bits(b));
    WordBound(Bits(b));
    HighBytesUntouched(r, w);
    TableStep(Xor(r, w));
    LowByteNumber(Xor(r, w));
  }

  /** The loop over a body with one table lookup a byte computes the bit-by-bit
      definition. */
  method ChecksumByTable(body: Bytes) returns (crc: Register)
    ensures crc == Checksum(body)
  {
    var table := MakeTable();
    hide IsTable, Xor, Absorb, AbsorbByte, Word, Bits, LowByte, HighBytes, Number;
    NothingAbsorbed(ONES);
    var c := ONES;
    for i := 0 to |body|
      invariant c == Absorb(ONES, body[..i])
    {
      LookupIsByteStep(table, c, body[i]);
      AbsorbOneMore(ONES, body, i);
      assert |table| == 256 by {
        TableSize(table);
      }
      c := Xor(table[Number(LowByte(Xor(c, Word(Bits(body[i])))))], HighBytes(c));
    }
    assert body[..|body|] == body;
    crc := Xor(c, ONES);
  }

  lemma TableSize(table: seq<Register>)
    requires IsTable(table)
    ensures |table| == 256
  {
  }

  lemma NothingAbsorbed(r: Register)
    ensures Absorb(r, []) == r
  {
  }

  lemma AbsorbOneMore(r: Register, body: Bytes, i: nat)
    requires i < |body|
    ensures Absorb(r, body[..i + 1]) == AbsorbByte(Absorb(r, body[..i]), body[i])
  {
    hide AbsorbByte;
    assert body[..i + 1] == body[..i] + [body[i]];
    Incremental(r, body[..i], [body[i]]);
    assert [body[i]][1..] == [];
  }

  // ---------------------------------------------------------------------
  // Linearity.
  // ---------------------------------------------------------------------

  function XorBits(x: seq<bool>, y: seq<bool>): (z: seq<bool>)
    requires |x| == |y|
    ensures |z| == |x| && forall i :: 0 <= i < |x| ==> z[i] == (x[i] != y[i])
  {
    seq(|x|, i requires 0 <= i < |x| => x[i] != y[i])
  }

  function XorByte(a: Byte, b: Byte): (c: Byte)
    ensures Bits(c) == XorBits(Bits(a), Bits(b))
  {
    ByteOf(XorBits(Bits(a), Bits(b)))
  }

  function XorBytes(a: Bytes, b: Bytes): (c: Bytes)
    requires |a| == |b|
    ensures |c| == |a|
  {
    if a == [] then [] else [XorByte(a[0], b[0])] + XorBytes(a[1..], b[1..])
  }

  lemma {:induction false} XorBytesBits(a: Bytes, b: Bytes)
    requires |a| == |b|
    ensures BodyBits(XorBytes(a, b)) == XorBits(BodyBits(a), BodyBits(b))
  {
    hide Bits;
    if a != [] {
      XorBytesBits(a[1..], b[1..]);
    }
  }

  lemma AbsorbBitLinear(r: Register, s: Register, a: bool, b: bool)
    ensures Xor(AbsorbBit(r, a), AbsorbBit(s, b)) == AbsorbBit(Xor(r, s), a != b)
  {
    hide Xor, Shift, Flag;
    ShiftIsLinear(Xor(r, Flag(a)), Xor(s, Flag(b)));
    XorInterchange(r, Flag(a), s, Flag(b));
    XorFlags(a, b);
  }

  lemma {:induction false} AbsorbBitsLinear(r: Register, s: Register, x: seq<bool>, y: seq<bool>)
    requires |x| == |y|
    ensures Xor(AbsorbBits(r, x), AbsorbBits(s, y)) == AbsorbBits(Xor(r, s), XorBits(x, y))
    decreases x
  {
    hide Xor, AbsorbBit;
    if x != [] {
      AbsorbBitLinear(r, s, x[0], y[0]);
      AbsorbBitsLinear(AbsorbBit(r, x[0]), AbsorbBit(s, y[0]), x[1..], y[1..]);
      assert XorBits(x, y)[1..] == XorBits(x[1..], y[1..]);
    }
  }

  /** Absorbing is linear over XOR of bodies of one length. */
  lemma AbsorbIsLinear(r: Register, s: Register, a: Bytes, b: Bytes)
    requires |a| == |b|
    ensures Xor(Absorb(r, a), Absorb(s, b)) == Absorb(Xor(r, s), XorBytes(a, b))
  {
    hide Xor, Absorb, AbsorbBits, BodyBits, XorBytes;
    BytesAreSerial(r, a);
    BytesAreSerial(s, b);
    BytesAreSerial(Xor(r, s), XorBytes(a, b));
    XorBytesBits(a, b);
    AbsorbBitsLinear(r, s, BodyBits(a), BodyBits(b));
  }

  /** The checksums of two bodies of one length differ by what their XOR leaves
      in a register that started at zero; so they agree exactly when that is
      nothing. */
  lemma ChecksumDifference(a: Bytes, b: Bytes)
    requires |a| == |b|
    ensures Xor(Checksum(a), Checksum(b)) == Absorb(ZERO, XorBytes(a, b))
    ensures Checksum(a) == Checksum(b) <==> Absorb(ZERO, XorBytes(a, b)) == ZERO
  {
    hide Xor, Absorb, XorBytes;
    AbsorbIsLinear(ONES, ONES, a, b);
    XorIsZero(ONES, ONES);
    XorCancelsTwice(Absorb(ONES, a), Absorb(ONES, b), ONES);
    XorIsZero(Checksum(a), Checksum(b));
  }

  /** The checksum is affine: XORing three bodies of one length XORs their
      checksums. */
  lemma ChecksumIsAffine(a: Bytes, b: Bytes, c: Bytes)
    requires |a| == |b| == |c|
    ensures Checksum(XorBytes(XorBytes(a, b), c)) == Xor(Xor(Checksum(a), Checksum(b)), Checksum(c))
  {
    hide Xor, Absorb, XorBytes;
    var x, y, z := Absorb(ONES, a), Absorb(ONES, b), Absorb(ONES, c);
    AbsorbIsLinear(ONES, ONES, a, b);
    AbsorbIsLinear(Xor(ONES, ONES), ONES, XorBytes(a, b), c);
    XorIsZero(ONES, ONES);
    XorZero(ONES);
    XorCancelsTwice(x, y, ONES);
    XorAssociative(Xor(x, y), z, ONES);
  }

  // ---------------------------------------------------------------------
  // Bursts of up to 32 bits are always seen.
  // ---------------------------------------------------------------------

  ghost predicate EqualOutside<T>(x: seq<T>, y: seq<T>, start: nat, width: nat) {
    && |x| == |y|
    && forall i :: 0 <= i < |x| && !(start <= i < start + width) ==> x[i] == y[i]
  }

  /** Equal bits neither create nor remove a difference between registers. */
  lemma {:induction false} CommonSuffixKeepsDifference(r: Register, s: Register, bits: seq<bool>)
    ensures AbsorbBits(r, bits) == AbsorbBits(s, bits) <==> r == s
    decreases bits
  {
    hide Shift, Xor, Flag;
    if bits != [] {
      CommonSuffixKeepsDifference(AbsorbBit(r, bits[0]), AbsorbBit(s, bits[0]), bits[1..]);
      ShiftIsInjective(Xor(r, Flag(bits[0])), Xor(s, Flag(bits[0])));
      XorCancels(r, s, Flag(bits[0]));
    }
  }

  /** Registers whose difference reaches bit k stay apart for k more bits,
      whatever those bits are. */
  lemma {:induction false} StayApart(r: Register, s: Register, x: seq<bool>, y: seq<bool>, k: nat)
    requires |x| == |y| <= k <= 32
    requires Reaches(Xor(r, s), k)
    ensures AbsorbBits(r, x) != AbsorbBits(s, y)
    decreases x
  {
    hide Shift, Xor, Reaches, Flag;
    if x == [] {
      ReachesIsNonzero(Xor(r, s), k);
      XorIsZero(r, s);
    } else {
      AbsorbBitLinear(r, s, x[0], y[0]);
      ShiftKeepsReach(Xor(r, s), k, x[0] != y[0]);
      StayApart(AbsorbBit(r, x[0]), AbsorbBit(s, y[0]), x[1..], y[1..], k - 1);
    }
  }

  /** Up to 32 bits whose first bits differ leave different registers. */
  lemma FirstDifferenceSurvives(r: Register, x: seq<bool>, y: seq<bool>)
    requires 0 < |x| == |y| <= 32
    requires x[0] != y[0]
    ensures AbsorbBits(r, x) != AbsorbBits(r, y)
  {
    hide Shift, Xor, Reaches, Flag, HasTopBit;
    AbsorbBitLinear(r, r, x[0], y[0]);
    XorIsZero(r, r);
    XorZero(Flag(true));
    ShiftedOneHasTopBit();
    TopBitReaches(AbsorbBit(ZERO, true), 31);
    StayApart(AbsorbBit(r, x[0]), AbsorbBit(r, y[0]), x[1..], y[1..], 31);
  }

  lemma {:induction false} FirstDifference<T>(x: seq<T>, y: seq<T>) returns (i: nat)
    requires |x| == |y| && x != y
    ensures i < |x| && x[i] != y[i] && x[..i] == y[..i]
  {
    if x[0] != y[0] {
      i := 0;
    } else {
      assert x == [x[0]] + x[1..] && y == [y[0]] + y[1..];
      var j := FirstDifference(x[1..], y[1..]);
      i := j + 1;
      assert x[..i] == [x[0]] + x[1..][..j];
      assert y[..i] == [y[0]] + y[1..][..j];
    }
  }

  lemma BitBurstDetected(r: Register, x: seq<bool>, y: seq<bool>, start: nat)
    requires x != y && EqualOutside(x, y, start, 32)
    ensures AbsorbBits(r, x) != AbsorbBits(r, y)
  {
    hide AbsorbBits;
    var i := FirstDifference(x, y);
    var end := if start + 32 <= |x| then start + 32 else |x|;
    var mid := x[i..end] + x[end..];
    var mid' := y[i..end] + x[end..];
    assert x == x[..i] + mid && y == x[..i] + mid';
    var r1 := AbsorbBits(r, x[..i]);
    BitsConcat(r, x[..i], mid);
    BitsConcat(r, x[..i], mid');
    BitsConcat(r1, x[i..end], x[end..]);
    BitsConcat(r1, y[i..end], x[end..]);
    FirstDifferenceSurvives(r1, x[i..end], y[i..end]);
    CommonSuffixKeepsDifference(AbsorbBits(r1, x[i..end]), AbsorbBits(r1, y[i..end]), x[end..]);
  }

  /** Two different bodies of one length that agree outside 32 consecutive bits
      have different checksums. */
  lemma BurstDetected(a: Bytes, b: Bytes, start: nat)
    requires a != b
    requires EqualOutside(BodyBits(a), BodyBits(b), start, 32)
    ensures Checksum(a) != Checksum(b)
  {
    hide Xor, Absorb, AbsorbBits, BodyBits;
    if BodyBits(a) == BodyBits(b) {
      BodyBitsInjective(a, b);
    }
    BitBurstDetected(ONES, BodyBits(a), BodyBits(b), start);
    BytesAreSerial(ONES, a);
    BytesAreSerial(ONES, b);
    XorCancels(Absorb(ONES, a), Absorb(ONES, b), ONES);
  }

  /** In bytes: a change confined to four consecutive bytes. */
  lemma FourByteChangeDetected(a: Bytes, b: Bytes, start: nat)
    requires a != b
    requires EqualOutside(a, b, start, 4)
    ensures Checksum(a) != Checksum(b)
  {
    hide Checksum, BodyBits, Bits;
    forall k | 0 <= k < 8 * |a| && !(8 * start <= k < 8 * start + 32)
      ensures BodyBits(a)[k] == BodyBits(b)[k]
    {
      var i, j := k / 8, k % 8;
      BodyBitAt(a, i, j);
      BodyBitAt(b, i, j);
    }
    BurstDetected(a, b, 8 * start);
  }

  // ---------------------------------------------------------------------
  // 33 bits are not: the generator itself leaves no trace.
  // ---------------------------------------------------------------------

  /** The bytes whose bits, in stream order, are `bits`. */
  function FromBits(bits: seq<bool>): (body: Bytes)
    requires |bits| % 8 == 0
    ensures BodyBits(body) == bits
  {
    if bits == [] then []
    else
      [ByteOf(bits[..8])] + FromBits(bits[8..])
  }

  /** The low n bits of a register, in stream order. */
  function RegisterBits(r: Register, n: nat): (bits: seq<bool>)
    ensures |bits| == n
    decreases n
  {
    if n == 0 then [] else [Odd(r)] + RegisterBits(Half(r), n - 1)
  }

  /** A register's number is the sum of the powers of two at its one bits. */
  lemma {:induction false} NumberOfBits(r: Register, n: nat)
    requires Halved(r, n) == ZERO
    ensures Number(r) == Value(RegisterBits(r, n))
    decreases n
  {
    hide Half, Odd, Number;
    if n == 0 {
      NumberOfZero();
    } else {
      NumberHalves(r);
      NumberOfBits(Half(r), n - 1);
    }
  }

  /** Feeding a register its own bits empties it. */
  lemma {:induction false} OwnBitsEmptyRegister(r: Register, n: nat)
    ensures AbsorbBits(r, RegisterBits(r, n)) == Halved(r, n)
    decreases n
  {
    hide Shift, Xor, Flag, Half, Odd;
    if n > 0 {
      OwnBitShiftsOut(r);
      OwnBitsEmptyRegister(Half(r), n - 1);
    }
  }

  lemma {:induction false} ZerosKeepZero(bits: seq<bool>)
    requires forall i :: 0 <= i < |bits| ==> !bits[i]
    ensures AbsorbBits(ZERO, bits) == ZERO
  {
    if bits != [] {
      hide Shift, Xor, Flag;
      ZeroShiftsToZero();
      ZerosKeepZero(bits[1..]);
    }
  }

  const PADDING: seq<bool> := [false, false, false, false, false, false, false]

  /** The 33 coefficients of the generator polynomial, highest first. */
  function GeneratorBits(): seq<bool> {
    [true] + RegisterBits(Register(POLYNOMIAL), 32)
  }

  /** The generator as a difference between five-byte strings. */
  function Generator(): (g: Bytes)
    ensures |g| == 5
    ensures BodyBits(g) == GeneratorBits() + PADDING
  {
    FromBits(GeneratorBits() + PADDING)
  }

  lemma GeneratorVanishes()
    ensures Absorb(ZERO, Generator()) == ZERO
  {
    hide Shift, Xor, Flag, Half, Odd, AbsorbBits, RegisterBits, Absorb;
    var poly := Register(POLYNOMIAL);
    BytesAreSerial(ZERO, Generator());
    BitsConcat(ZERO, GeneratorBits(), PADDING);
    BitsConcat(ZERO, [true], RegisterBits(poly, 32));
    assert AbsorbBits(ZERO, [true]) == poly by {
      FirstGeneratorBit();
    }
    OwnBitsEmptyRegister(poly, 32);
    HalvedThroughout(poly);
    ZerosKeepZero(PADDING);
  }

  lemma FirstGeneratorBit()
    ensures AbsorbBits(ZERO, [true]) == Register(POLYNOMIAL)
  {
  }

  /** The body with the generator XORed into its first five bytes. */
  function Disguised(body: Bytes): (body': Bytes)
    requires |body| >= 5
    ensures |body'| == |body|
  {
    XorBytes(body[..5], Generator()) + body[5..]
  }

  /** Every body of at least five bytes has a twin of the same length, different
      from it in 33 consecutive bits only, with the same checksum. */
  lemma CollidingTwin(body: Bytes)
    requires |body| >= 5
    ensures Disguised(body) != body
    ensures EqualOutside(BodyBits(Disguised(body)), BodyBits(body), 0, 33)
    ensures Checksum(Disguised(body)) == Checksum(body)
  {
    hide Xor, Absorb, BodyBits, XorBytes;
    var head, tail := body[..5], body[5..];
    var head' := XorBytes(head, Generator());
    assert body == head + tail;
    AbsorbIsLinear(ONES, ZERO, head, Generator());
    GeneratorVanishes();
    XorZero(ONES);
    XorZero(Absorb(ONES, head));
    Incremental(ONES, head, tail);
    Incremental(ONES, head', tail);
    DisguiseIsBurst(head, tail);
  }

  lemma {:induction false} BodyBitsConcat(x: Bytes, y: Bytes)
    ensures BodyBits(x + y) == BodyBits(x) + BodyBits(y)
  {
    hide Bits;
    if x == [] {
      assert x + y == y;
    } else {
      assert (x + y)[1..] == x[1..] + y;
      BodyBitsConcat(x[1..], y);
    }
  }

  lemma DisguiseIsBurst(head: Bytes, tail: Bytes)
    requires |head| == 5
    ensures var head' := XorBytes(head, Generator());
            && head' + tail != head + tail
            && EqualOutside(BodyBits(head' + tail), BodyBits(head + tail), 0, 33)
  {
    hide BodyBits, XorBytes, Bits, RegisterBits, Generator;
    var head' := XorBytes(head, Generator());
    BodyBitsConcat(head, tail);
    BodyBitsConcat(head', tail);
    XorBytesBits(head, Generator());
    assert BodyBits(head')[0] != BodyBits(head)[0];
    assert (head' + tail)[..5] == head' && (head + tail)[..5] == head;
  }

  ghost predicate DetectsBursts(width: nat) {
    forall a: Bytes, b: Bytes, start: nat ::
      a != b && EqualOutside(BodyBits(a), BodyBits(b), start, width) ==> Checksum(a) != Checksum(b)
  }

  /** The checksum sees every change confined to `width` consecutive bits, of
      every body, exactly when width is at most 32. */
  lemma BurstWidthIsSharp(width: nat)
    ensures DetectsBursts(width) <==> width <= 32
  {
    hide Checksum, BodyBits, Disguised;
    if width <= 32 {
      forall a: Bytes, b: Bytes, start: nat | a != b && EqualOutside(BodyBits(a), BodyBits(b), start, width)
        ensures Checksum(a) != Checksum(b)
      {
        BurstDetected(a, b, start);
      }
    } else {
      var body: Bytes := [0, 0, 0, 0, 0];
      CollidingTwin(body);
      assert EqualOutside(BodyBits(Disguised(body)), BodyBits(body), 0, width);
    }
  }

  // ---------------------------------------------------------------------
  // Four more bytes reach every checksum, each in exactly one way.
  // ---------------------------------------------------------------------

  function Unshifted(r: Register, n: nat): Register
    decreases n
  {
    if n == 0 then r else Unshift(Unshifted(r, n - 1))
  }

  lemma {:induction false} ShiftedUnshifted(r: Register, n: nat)
    ensures Shifted(Unshifted(r, n), n) == r
  {
    hide Shift, Unshift;
    if n > 0 {
      ShiftIsBijective(Unshifted(r, n - 1));
      ShiftedUnshifted(r, n - 1);
    }
  }

  lemma {:induction false} WordOfOwnBits(r: Register, n: nat)
    requires Halved(r, n) == ZERO
    ensures Word(RegisterBits(r, n)) == r
    decreases n
  {
    hide Half, Odd, Prepend;
    if n > 0 {
      WordOfOwnBits(Half(r), n - 1);
      PrependHalf(r);
    }
  }

  /** The four bytes that take a register to the given one. */
  function Bridge(from: Register, to: Register): (w: Bytes)
    ensures BodyBits(w) == RegisterBits(Xor(from, Unshifted(to, 32)), 32)
  {
    FromBits(RegisterBits(Xor(from, Unshifted(to, 32)), 32))
  }

  lemma BridgeArrives(from: Register, to: Register)
    ensures |Bridge(from, to)| == 4 && Absorb(from, Bridge(from, to)) == to
  {
    hide Xor, Absorb, AbsorbBits, Shifted, Unshifted, RegisterBits, Word, BodyBits, Bridge;
    var start := Unshifted(to, 32);
    var w := Xor(from, start);
    var bits := RegisterBits(w, 32);
    assert |BodyBits(Bridge(from, to))| == 32;
    BytesAreSerial(from, Bridge(from, to));
    HalvedThroughout(w);
    WordOfOwnBits(w, 32);
    WordIsSerial(from, bits);
    XorRestores(from, start);
    ShiftedUnshifted(to, 32);
  }

  /** The four bytes that complete a beginning to a target checksum. */
  function Completion(prefix: Bytes, target: Register): Bytes {
    Bridge(Absorb(ONES, prefix), Xor(target, ONES))
  }

  lemma CompletionReaches(prefix: Bytes, target: Register)
    ensures |Completion(prefix, target)| == 4
    ensures Checksum(prefix + Completion(prefix, target)) == target
  {
    hide Xor, Absorb, Bridge;
    var from, to := Absorb(ONES, prefix), Xor(target, ONES);
    BridgeArrives(from, to);
    Incremental(ONES, prefix, Bridge(from, to));
    XorUndone(target, ONES);
  }

  /** After every beginning, exactly one choice of the last four bytes gives the
      target checksum, whatever the target. */
  lemma CompletionExact(prefix: Bytes, last: Bytes, target: Register)
    ensures |last| == 4 && Checksum(prefix + last) == target <==> last == Completion(prefix, target)
  {
    hide Checksum, Completion;
    CompletionReaches(prefix, target);
    var w := Completion(prefix, target);
    if |last| == 4 && Checksum(prefix + last) == target && last != w {
      assert (prefix + last)[|prefix|..] == last && (prefix + w)[|prefix|..] == w;
      FourByteChangeDetected(prefix + last, prefix + w, |prefix|);
    }
  }

  ghost predicate DeterminesAtLength(body: Bytes) {
    forall b: Bytes :: |b| == |body| && Checksum(b) == Checksum(body) ==> b == body
  }

  /** Among bodies of its length, a body is determined by its checksum exactly
      when it has at most four bytes. */
  lemma DeterminedExactly(body: Bytes)
    ensures DeterminesAtLength(body) <==> |body| <= 4
  {
    hide Checksum, Disguised, BodyBits;
    if |body| <= 4 {
      forall b: Bytes | |b| == |body| && Checksum(b) == Checksum(body)
        ensures b == body
      {
        if b != body {
          FourByteChangeDetected(b, body, 0);
        }
      }
    } else {
      CollidingTwin(body);
      assert |Disguised(body)| == |body|;
    }
  }

  // ---------------------------------------------------------------------
  // The published check value.
  // ---------------------------------------------------------------------

  /** The register with these low bits, lowest first. */
  function EightBits(b0: bool, b1: bool, b2: bool, b3: bool, b4: bool, b5: bool, b6: bool, b7: bool): Register {
    Prepend(b0, Prepend(b1, Prepend(b2, Prepend(b3, Prepend(b4, Prepend(b5, Prepend(b6, Prepend(b7, ZERO))))))))
  }

  /** A byte whose bits are known, as a register. */
  lemma ByteWord(b: Byte, b0: bool, b1: bool, b2: bool, b3: bool, b4: bool, b5: bool, b6: bool, b7: bool)
    requires b as nat == Bit(b0) + 2 * Bit(b1) + 4 * Bit(b2) + 8 * Bit(b3)
                         + 16 * Bit(b4) + 32 * Bit(b5) + 64 * Bit(b6) + 128 * Bit(b7)
    ensures Word(Bits(b)) == EightBits(b0, b1, b2, b3, b4, b5, b6, b7)
  {
    hide Value, Word, Prepend, LowBits;
    NoBits();
    var s7 := PrependBit(b7, []);
    var s6 := PrependBit(b6, s7);
    var s5 := PrependBit(b5, s6);
    var s4 := PrependBit(b4, s5);
    var s3 := PrependBit(b3, s4);
    var s2 := PrependBit(b2, s3);
    var s1 := PrependBit(b1, s2);
    var s0 := PrependBit(b0, s1);
    LowBitsOfValue(s0);
  }

  lemma NoBits()
    ensures Value([]) == 0 && Word([]) == ZERO
  {
  }

  lemma PrependBit(b: bool, rest: seq<bool>) returns (bits: seq<bool>)
    ensures |bits| == |rest| + 1
    ensures Value(bits) == Bit(b) + 2 * Value(rest) && Word(bits) == Prepend(b, Word(rest))
  {
    bits := [b] + rest;
    assert bits[1..] == rest;
  }

  /** The ASCII digits 1 to 9, the message of the published check value. */
  const CHECK_MESSAGE: Bytes := [0x31, 0x32, 0x33, 0x34, 0x35, 0x36, 0x37, 0x38, 0x39]

  lemma CheckWords()
    ensures EightBits(true, false, false, false, true, true, false, false) == Register(0x31)
    ensures EightBits(false, true, false, false, true, true, false, false) == Register(0x32)
    ensures EightBits(true, true, false, false, true, true, false, false) == Register(0x33)
    ensures EightBits(false, false, true, false, true, true, false, false) == Register(0x34)
    ensures EightBits(true, false, true, false, true, true, false, false) == Register(0x35)
    ensures EightBits(false, true, true, false, true, true, false, false) == Register(0x36)
    ensures EightBits(true, true, true, false, true, true, false, false) == Register(0x37)
    ensures EightBits(false, false, false, true, true, true, false, false) == Register(0x38)
    ensures EightBits(true, false, false, true, true, true, false, false) == Register(0x39)
  {
  }

  lemma CheckShifts()
    ensures Shift8(Xor(Register(0xFFFFFFFF), Register(0x31))) == Register(0x7C231048)
    ensures Shift8(Xor(Register(0x7C231048), Register(0x32))) == Register(0xB0ACBB32)
    ensures Shift8(Xor(Register(0xB0ACBB32), Register(0x33))) == Register(0x77B79C2D)
    ensures Shift8(Xor(Register(0x77B79C2D), Register(0x34))) == Register(0x641C1F5C)
    ensures Shift8(Xor(Register(0x641C1F5C), Register(0x35))) == Register(0x340AC5E3)
    ensures Shift8(Xor(Register(0x340AC5E3), Register(0x36))) == Register(0xF68D2C9E)
    ensures Shift8(Xor(Register(0xF68D2C9E), Register(0x37))) == Register(0xAFFC9660)
    ensures Shift8(Xor(Register(0xAFFC9660), Register(0x38))) == Register(0x651F2550)
    ensures Shift8(Xor(Register(0x651F2550), Register(0x39))) == Register(0x340BC6D9)
  {
  }

  lemma CheckBytes()
    ensures AbsorbByte(Register(0xFFFFFFFF), 0x31) == Register(0x7C231048)
    ensures AbsorbByte(Register(0x7C231048), 0x32) == Register(0xB0ACBB32)
    ensures AbsorbByte(Register(0xB0ACBB32), 0x33) == Register(0x77B79C2D)
    ensures AbsorbByte(Register(0x77B79C2D), 0x34) == Register(0x641C1F5C)
    ensures AbsorbByte(Register(0x641C1F5C), 0x35) == Register(0x340AC5E3)
    ensures AbsorbByte(Register(0x340AC5E3), 0x36) == Register(0xF68D2C9E)
    ensures AbsorbByte(Register(0xF68D2C9E), 0x37) == Register(0xAFFC9660)
    ensures AbsorbByte(Register(0xAFFC9660), 0x38) == Register(0x651F2550)
    ensures AbsorbByte(Register(0x651F2550), 0x39) == Register(0x340BC6D9)
  {
    CheckWords();
    CheckShifts();
    hide EightBits, Word, Bits, Shift8, Xor;
    ByteWord(0x31, true, false, false, false, true, true, false, false);
    ByteWord(0x32, false, true, false, false, true, true, false, false);
    ByteWord(0x33, true, true, false, false, true, true, false, false);
    ByteWord(0x34, false, false, true, false, true, true, false, false);
    ByteWord(0x35, true, false, true, false, true, true, false, false);
    ByteWord(0x36, false, true, true, false, true, true, false, false);
    ByteWord(0x37, true, true, true, false, true, true, false, false);
    ByteWord(0x38, false, false, false, true, true, true, false, false);
    ByteWord(0x39, true, false, false, true, true, true, false, false);
  }

  /** Polynomial, bit order, initial value and final complement are those of the
      standard: its check value comes out. */
  lemma CheckValue()
    ensures Checksum(CHECK_MESSAGE) == Register(0xCBF4_3926)
  {
    hide AbsorbByte, Xor;
    CheckBytes();
    AbsorbFirst(Register(0xFFFFFFFF), CHECK_MESSAGE, 0);
    AbsorbFirst(Register(0x7C231048), CHECK_MESSAGE, 1);
    AbsorbFirst(Register(0xB0ACBB32), CHECK_MESSAGE, 2);
    AbsorbFirst(Register(0x77B79C2D), CHECK_MESSAGE, 3);
    AbsorbFirst(Register(0x641C1F5C), CHECK_MESSAGE, 4);
    AbsorbFirst(Register(0x340AC5E3), CHECK_MESSAGE, 5);
    AbsorbFirst(Register(0xF68D2C9E), CHECK_MESSAGE, 6);
    AbsorbFirst(Register(0xAFFC9660), CHECK_MESSAGE, 7);
    AbsorbFirst(Register(0x651F2550), CHECK_MESSAGE, 8);
    FinalComplement();
  }

  lemma AbsorbFirst(r: Register, body: Bytes, k: nat)
    requires k < |body|
    ensures Absorb(r, body[k..]) == Absorb(AbsorbByte(r, body[k]), body[k + 1..])
  {
  }

  lemma FinalComplement()
    ensures Xor(Register(0x340BC6D9), ONES) == Register(0xCBF4_3926)
  {
  }
}
