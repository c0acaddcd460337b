/** The standard Base64 alphabet with required canonical padding (sections 3.5
    and 4 of RFC 4648): each byte string has exactly one accepted text. */
module Base64 {
  import opened Machine
  import opened Outcomes

  newtype Sextet = x: int | 0 <= x < 64

  function SextetOf(c: char): Option<Sextet> {
    if 'A' <= c <= 'Z' then Some((c as int - 'A' as int) as Sextet)
    else if 'a' <= c <= 'z' then Some((c as int - 'a' as int + 26) as Sextet)
    else if '0' <= c <= '9' then Some((c as int - '0' as int + 52) as Sextet)
    else if c == '+' then Some(62)
    else if c == '/' then Some(63)
    else None
  }

  function CharOf(x: Sextet): char {
    var v := x as int;
    if v < 26 then ('A' as int + v) as char
    else if v < 52 then ('a' as int + v - 26) as char
    else if v < 62 then ('0' as int + v - 52) as char
    else if v == 62 then '+'
    else '/'
  }

  function SextetsOf(s: string): (r: Option<seq<Sextet>>)
    ensures r.Some? ==> |r.value| == |s|
  {
    if s == "" then Some([])
    else
      var first :- SextetOf(s[0]);
      var rest :- SextetsOf(s[1..]);
      Some([first] + rest)
  }

  function CharsOf(v: seq<Sextet>): (s: string)
    ensures |s| == |v|
    ensures forall i :: 0 <= i < |v| ==> s[i] == CharOf(v[i])
  {
    if v == [] then "" else [CharOf(v[0])] + CharsOf(v[1..])
  }

  // Where two neighbouring sextets meet in a byte.
  function First(x: Sextet, y: Sextet): Byte {
    (4 * x as nat + y as nat / 16) as Byte
  }

  function Second(x: Sextet, y: Sextet): Byte {
    (16 * (x as nat % 16) + y as nat / 4) as Byte
  }

  function Third(x: Sextet, y: Sextet): Byte {
    (64 * (x as nat % 4) + y as nat) as Byte
  }

  /** Two, three or four sextets hold one, two or three bytes. */
  function Pack(v: seq<Sextet>): (b: Bytes)
    requires 2 <= |v| <= 4
    ensures |b| == |v| - 1
  {
    if |v| == 2 then [First(v[0], v[1])]
    else if |v| == 3 then [First(v[0], v[1]), Second(v[1], v[2])]
    else [First(v[0], v[1]), Second(v[1], v[2]), Third(v[2], v[3])]
  }

  // Where two neighbouring bytes meet in a sextet; a missing byte counts as 0.
  function Highest(a: Byte): Sextet {
    (a as nat / 4) as Sextet
  }

  function UpperMiddle(a: Byte, b: Byte): Sextet {
    (16 * (a as nat % 4) + b as nat / 16) as Sextet
  }

  function LowerMiddle(b: Byte, c: Byte): Sextet {
    (4 * (b as nat % 16) + c as nat / 64) as Sextet
  }

  function Lowest(c: Byte): Sextet {
    (c as nat % 64) as Sextet
  }

  function Unpack(b: Bytes): (v: seq<Sextet>)
    requires 1 <= |b| <= 3
    ensures |v| == |b| + 1
  {
    if |b| == 1 then [Highest(b[0]), UpperMiddle(b[0], 0)]
    else if |b| == 2 then [Highest(b[0]), UpperMiddle(b[0], b[1]), LowerMiddle(b[1], 0)]
    else [Highest(b[0]), UpperMiddle(b[0], b[1]), LowerMiddle(b[1], b[2]), Lowest(b[2])]
  }

  /** The sextets of a group are its bits, highest first, six at a time: read in
      base 64 they are the number the bytes are in base 256, with zero bits after
      an incomplete group. */
  lemma SextetsKeepNumber(b: Bytes)
    requires 1 <= |b| <= 3
    ensures var v := Unpack(b);
            && (|b| == 1 ==> 64 * v[0] as nat + v[1] as nat == b[0] as nat * 16)
            && (|b| == 2 ==>
                  4096 * v[0] as nat + 64 * v[1] as nat + v[2] as nat == (256 * b[0] as nat + b[1] as nat) * 4)
            && (|b| == 3 ==>
                  262144 * v[0] as nat + 4096 * v[1] as nat + 64 * v[2] as nat + v[3] as nat ==
                  65536 * b[0] as nat + 256 * b[1] as nat + b[2] as nat)
  {
  }

  /** The bits of the last sextet that belong to no byte are zero. */
  predicate UnusedBitsZero(v: seq<Sextet>)
    requires 2 <= |v| <= 4
  {
    && (|v| == 2 ==> v[1] as nat % 16 == 0)
    && (|v| == 3 ==> v[2] as nat % 4 == 0)
  }

  /** A quantum without its padding. */
  function DecodeSextets(s: string): (r: Option<Bytes>)
    requires 2 <= |s| <= 4
    ensures r.Some? ==> |r.value| == |s| - 1
  {
    var v :- SextetsOf(s);
    if UnusedBitsZero(v) then Some(Pack(v)) else None
  }

  function Decode(s: string): Option<Bytes> {
    if s == "" then Some([])
    else if |s| < 4 then None
    else if |s| == 4 && s[3] == '=' then DecodeSextets(if s[2] == '=' then s[..2] else s[..3])
    else
      var first :- DecodeSextets(s[..4]);
      var rest :- Decode(s[4..]);
      Some(first + rest)
  }

  function Encode(b: Bytes): string {
    if b == [] then ""
    else if |b| == 1 then CharsOf(Unpack(b)) + "=="
    else if |b| == 2 then CharsOf(Unpack(b)) + "="
    else CharsOf(Unpack(b[..3])) + Encode(b[3..])
  }

  /** The alphabet of section 4 of RFC 4648. */
  lemma Alphabet(x: Sextet)
    ensures x < 26 ==> CharOf(x) == "ABCDEFGHIJKLMNOPQRSTUVWXYZ"[x]
    ensures 26 <= x < 52 ==> CharOf(x) == "abcdefghijklmnopqrstuvwxyz"[x - 26]
    ensures 52 <= x < 62 ==> CharOf(x) == "0123456789"[x - 52]
    ensures x == 62 ==> CharOf(x) == '+'
    ensures x == 63 ==> CharOf(x) == '/'
  {
  }

  /** The groups are written in order, four characters each. */
  lemma {:induction false} EncodeAt(b: Bytes, k: nat)
    requires 3 * k + 3 <= |b|
    ensures |Encode(b)| >= 4 * k + 4
    ensures Encode(b)[4 * k..4 * k + 4] == CharsOf(Unpack(b[3 * k..3 * k + 3]))
  {
    hide CharsOf, Unpack;
    if k > 0 {
      EncodeAt(b[3..], k - 1);
      assert b[3..][3 * k - 3..3 * k] == b[3 * k..3 * k + 3];
      assert Encode(b)[4 * k..4 * k + 4] == Encode(b[3..])[4 * k - 4..4 * k];
    }
  }

  /** An incomplete last group is padded to four characters. */
  lemma {:induction false} EncodeEnds(b: Bytes, full: nat, left: nat)
    requires |b| == 3 * full + left && left < 3
    ensures |Encode(b)| == 4 * full + (if left == 0 then 0 else 4)
    ensures left == 1 ==> Encode(b)[4 * full..] == CharsOf(Unpack(b[3 * full..])) + "=="
    ensures left == 2 ==> Encode(b)[4 * full..] == CharsOf(Unpack(b[3 * full..])) + "="
  {
    hide CharsOf, Unpack;
    if full > 0 {
      EncodeEnds(b[3..], full - 1, left);
      assert b[3..][3 * (full - 1)..] == b[3 * full..];
      assert Encode(b)[4 * full..] == Encode(b[3..])[4 * (full - 1)..];
    } else if left > 0 {
      assert b[0..] == b;
    }
  }

  lemma SextetExact(c: char, v: Sextet)
    ensures SextetOf(c) == Some(v) <==> c == CharOf(v)
    ensures CharOf(v) != '='
  {
  }

  lemma {:induction false} SextetsExact(s: string, v: seq<Sextet>)
    ensures SextetsOf(s) == Some(v) <==> s == CharsOf(v)
    ensures '=' !in CharsOf(v)
    decreases v
  {
    hide SextetOf, CharOf;
    if v != [] {
      if s != "" {
        SextetExact(s[0], v[0]);
        SextetsExact(s[1..], v[1..]);
        assert s == [s[0]] + s[1..] && v == [v[0]] + v[1..];
      } else {
        SextetExact('=', v[0]);
        SextetsExact("", v[1..]);
      }
    }
  }

  // Quotient and remainder of a number written by its two parts.

  lemma By4(q: nat, r: nat)
    requires r < 4
    ensures (4 * q + r) / 4 == q && (4 * q + r) % 4 == r
  {
  }

  lemma By16(q: nat, r: nat)
    requires r < 16
    ensures (16 * q + r) / 16 == q && (16 * q + r) % 16 == r
  {
  }

  lemma By64(q: nat, r: nat)
    requires r < 64
    ensures (64 * q + r) / 64 == q && (64 * q + r) % 64 == r
  {
  }

  lemma FirstByte(a: Byte, b: Byte)
    ensures First(Highest(a), UpperMiddle(a, b)) == a
    ensures UpperMiddle(a, 0) as nat % 16 == 0
  {
    By16(a as nat % 4, b as nat / 16);
    By16(a as nat % 4, 0);
  }

  lemma SecondByte(a: Byte, b: Byte, c: Byte)
    ensures Second(UpperMiddle(a, b), LowerMiddle(b, c)) == b
    ensures LowerMiddle(b, 0) as nat % 4 == 0
  {
    By16(a as nat % 4, b as nat / 16);
    By4(b as nat % 16, c as nat / 64);
    By4(b as nat % 16, 0);
  }

  lemma ThirdByte(b: Byte, c: Byte)
    ensures Third(LowerMiddle(b, c), Lowest(c)) == c
  {
    By4(b as nat % 16, c as nat / 64);
  }

  lemma FirstSextets(v: Sextet, w: Sextet, x: Sextet)
    ensures Highest(First(v, w)) == v
    ensures UpperMiddle(First(v, w), Second(w, x)) == w
    ensures w as nat % 16 == 0 ==> UpperMiddle(First(v, w), 0) == w
  {
    By4(v as nat, w as nat / 16);
    By16(w as nat % 16, x as nat / 4);
  }

  lemma LastSextets(w: Sextet, x: Sextet, y: Sextet)
    ensures LowerMiddle(Second(w, x), Third(x, y)) == x
    ensures Lowest(Third(x, y)) == y
    ensures x as nat % 4 == 0 ==> LowerMiddle(Second(w, x), 0) == x
  {
    By16(w as nat % 16, x as nat / 4);
    By64(x as nat % 4, y as nat);
  }

  lemma PackUnpack(b: Bytes)
    requires 1 <= |b| <= 3
    ensures UnusedBitsZero(Unpack(b)) && Pack(Unpack(b)) == b
  {
    hide First, Second, Third, Highest, UpperMiddle, LowerMiddle, Lowest;
    var b1, b2 := if |b| < 2 then 0 else b[1], if |b| < 3 then 0 else b[2];
    FirstByte(b[0], b1);
    SecondByte(b[0], b1, b2);
    ThirdByte(b1, b2);
  }

  lemma UnpackPack(v: seq<Sextet>)
    requires 2 <= |v| <= 4 && UnusedBitsZero(v)
    ensures Unpack(Pack(v)) == v
  {
    hide First, Second, Third, Highest, UpperMiddle, LowerMiddle, Lowest;
    var v2, v3 := if |v| < 3 then 0 else v[2], if |v| < 4 then 0 else v[3];
    FirstSextets(v[0], v[1], v2);
    LastSextets(v[1], v2, v3);
  }

  lemma DecodeSextetsExact(s: string, b: Bytes)
    requires 2 <= |s| <= 4 && |b| == |s| - 1
    ensures DecodeSextets(s) == Some(b) <==> s == CharsOf(Unpack(b))
  {
    hide SextetsOf, CharsOf, Pack, Unpack, UnusedBitsZero;
    PackUnpack(b);
    SextetsExact(s, Unpack(b));
    if DecodeSextets(s) == Some(b) {
      UnpackPack(SextetsOf(s).value);
    }
  }

  /** The decoder accepts the canonical text of b, and nothing else, as b. */
  lemma {:induction false} DecodeExact(s: string, b: Bytes)
    ensures Decode(s) == Some(b) <==> s == Encode(b)
    decreases b
  {
    hide DecodeSextets, CharsOf, Unpack;
    if s != "" && b != [] {
      var n := if |b| < 3 then |b| else 3;
      NoPaddingInside(b[..n]);
      if |s| < 4 {
      } else if |s| == 4 && s[3] == '=' {
        DecodeFinalExact(s, b);
      } else if n == 3 {
        DecodeSextetsExact(s[..4], b[..3]);
        DecodeExact(s[4..], b[3..]);
        assert b == b[..3] + b[3..] && s == s[..4] + s[4..];
        if Decode(s) == Some(b) {
          var first := DecodeSextets(s[..4]).value;
          assert b[..3] == first && b[3..] == Decode(s[4..]).value;
        }
        if s == Encode(b) {
          assert s[..4] == CharsOf(Unpack(b[..3])) && s[4..] == Encode(b[3..]);
        }
      } else {
        assert b[..n] == b;
        assert Encode(b)[3] == '=' && |Encode(b)| == 4;
      }
    }
  }

  lemma NoPaddingInside(b: Bytes)
    requires 1 <= |b| <= 3
    ensures '=' !in CharsOf(Unpack(b))
  {
    SextetsExact("", Unpack(b));
  }

  lemma DecodeFinalExact(s: string, b: Bytes)
    requires |s| == 4 && s[3] == '=' && b != []
    ensures Decode(s) == Some(b) <==> s == Encode(b)
  {
    hide DecodeSextets, CharsOf, Unpack;
    var n := if |b| < 3 then |b| else 3;
    NoPaddingInside(b[..n]);
    assert CharsOf(Unpack(b[..n]))[n] != '=';
    if n == 3 {
      assert Encode(b)[3] != '=';
    } else {
      assert b[..n] == b;
      var t := if s[2] == '=' then s[..2] else s[..3];
      if |t| == n + 1 {
        DecodeSextetsExact(t, b);
        assert s == t + (if n == 1 then "==" else "=");
        assert Encode(b)[..n + 1] == CharsOf(Unpack(b));
      } else {
        assert Encode(b)[2] == '=' <==> n == 1;
      }
    }
  }
}
