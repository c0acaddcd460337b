/** Base16 (section 8 of RFC 4648) as the hex crate reads it, and the byte
    comparison of a decoded candidate with the expected tag. */
module Hex {
  import opened Machine
  import opened Outcomes
  import opened Text

  function NibbleOf(c: char): (v: Option<nat>)
    ensures v.Some? ==> v.value < 16
  {
    if '0' <= c <= '9' then Some(c as int - '0' as int)
    else if 'a' <= c <= 'f' then Some(c as int - 'a' as int + 10)
    else if 'A' <= c <= 'F' then Some(c as int - 'A' as int + 10)
    else None
  }

  function CharOf(v: nat): char
    requires v < 16
  {
    if v < 10 then ('0' as int + v) as char else ('a' as int + v - 10) as char
  }

  /** Two characters a byte; an odd length or any other character is an error,
      whichever is met first. */
  function Decode(s: string): Option<Bytes> {
    if s == "" then Some([])
    else if |s| == 1 then None
    else
      var high :- NibbleOf(s[0]);
      var low :- NibbleOf(s[1]);
      var rest :- Decode(s[2..]);
      Some([(16 * high + low) as Byte] + rest)
  }

  function Encode(b: Bytes): (s: string)
    ensures |s| == 2 * |b|
  {
    if b == [] then ""
    else [CharOf(b[0] as nat / 16), CharOf(b[0] as nat % 16)] + Encode(b[1..])
  }

  /** The sixteen digits of section 8 of RFC 4648, letters in lower case. */
  lemma Alphabet(v: nat)
    requires v < 16
    ensures CharOf(v) == "0123456789abcdef"[v]
  {
  }

  /** Each byte is written as its high digit, then its low one. */
  lemma {:induction false} EncodeAt(b: Bytes, i: nat)
    requires i < |b|
    ensures Encode(b)[2 * i] == "0123456789abcdef"[b[i] as nat / 16]
    ensures Encode(b)[2 * i + 1] == "0123456789abcdef"[b[i] as nat % 16]
  {
    hide CharOf;
    if i == 0 {
      Alphabet(b[0] as nat / 16);
      Alphabet(b[0] as nat % 16);
    } else {
      EncodeAt(b[1..], i - 1);
    }
  }

  lemma NibbleExact(c: char, v: nat)
    requires v < 16
    ensures NibbleOf(c) == Some(v) <==> LowerChar(c) == CharOf(v)
  {
  }

  /** Decoding accepts the hex text of b in any mixture of cases and nothing
      else as b. */
  lemma {:induction false} DecodeExact(s: string, b: Bytes)
    ensures Decode(s) == Some(b) <==> Lower(s) == Encode(b)
  {
    hide NibbleOf, CharOf, LowerChar;
    if s == "" {
      assert Lower(s) == "";
    } else if |s| >= 2 && b != [] {
      var high, low := b[0] as nat / 16, b[0] as nat % 16;
      assert b[0] == (16 * high + low) as Byte && b == [b[0]] + b[1..];
      NibbleExact(s[0], high);
      NibbleExact(s[1], low);
      DecodeExact(s[2..], b[1..]);
      assert Lower(s) == [LowerChar(s[0]), LowerChar(s[1])] + Lower(s[2..]);
      if Decode(s) == Some(b) {
        NibblesOfByte(s[0], s[1], b[0]);
      }
      if Lower(s) == Encode(b) {
        assert Lower(s)[2..] == Encode(b)[2..] == Encode(b[1..]);
        assert Lower(s)[0] == Encode(b)[0] && Lower(s)[1] == Encode(b)[1];
      }
    }
  }

  lemma NibblesOfByte(c: char, d: char, b: Byte)
    requires NibbleOf(c).Some? && NibbleOf(d).Some?
    requires (16 * NibbleOf(c).value + NibbleOf(d).value) as Byte == b
    ensures NibbleOf(c).value == b as nat / 16 && NibbleOf(d).value == b as nat % 16
  {
  }

  /** Compares every pair of bytes whether or not an earlier pair differed. */
  function CompareAll(equalSoFar: bool, a: Bytes, b: Bytes): bool
    requires |a| == |b|
    decreases a
  {
    if a == [] then equalSoFar else CompareAll(equalSoFar && a[0] == b[0], a[1..], b[1..])
  }

  lemma {:induction false} CompareAllIsEquality(equalSoFar: bool, a: Bytes, b: Bytes)
    requires |a| == |b|
    ensures CompareAll(equalSoFar, a, b) <==> equalSoFar && a == b
    decreases a
  {
    if a != [] {
      CompareAllIsEquality(equalSoFar && a[0] == b[0], a[1..], b[1..]);
      assert a == [a[0]] + a[1..] && b == [b[0]] + b[1..];
    }
  }

  /** One candidate of the header against the expected tag. */
  predicate Matches(candidate: string, expected: Bytes) {
    match Decode(candidate)
    case None => false
    case Some(bytes) => |bytes| == |expected| && CompareAll(true, bytes, expected)
  }

  /** A candidate matches exactly when, case aside, it is the tag's hex text. */
  lemma MatchesExactly(candidate: string, expected: Bytes)
    ensures Matches(candidate, expected) <==> Lower(candidate) == Encode(expected)
  {
    DecodeExact(candidate, expected);
    if Decode(candidate).Some? && |Decode(candidate).value| == |expected| {
      CompareAllIsEquality(true, Decode(candidate).value, expected);
    }
  }

  /** So one text matches at most one tag. */
  lemma MatchDeterminesTag(candidate: string, tag: Bytes, tag': Bytes)
    requires Matches(candidate, tag) && Matches(candidate, tag')
    ensures tag == tag'
  {
    MatchesExactly(candidate, tag);
    MatchesExactly(candidate, tag');
    DecodeExact(candidate, tag);
    DecodeExact(candidate, tag');
  }
}
