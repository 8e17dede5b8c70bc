/**
 * UTF-8 as section 3 of RFC 3629 defines it: `mb_chr($cp, 'UTF-8')` turns a
 * Unicode scalar value into one to four bytes, which the regex generator
 * then reads back as hexadecimal byte strings.
 */
module Utf8 {
  import opened PhpArray

  /** A Unicode scalar value: at most U+10FFFF and not a surrogate. */
  predicate IsScalar(cp: nat)
  {
    cp <= 0x10FFFF && !(0xD800 <= cp <= 0xDFFF)
  }

  predicate IsByte(b: nat)
  {
    b < 256
  }

  /** A continuation byte, `10xxxxxx`. */
  predicate IsCont(b: nat)
  {
    0x80 <= b < 0xC0
  }

  /** `mb_chr($cp, 'UTF-8')`: the shortest encoding, one to four bytes. */
  function Encode(cp: nat): (b: seq<nat>)
    requires IsScalar(cp)
    ensures 1 <= |b| <= 4
    ensures forall i :: 0 <= i < |b| ==> IsByte(b[i])
    ensures |b| == 1 <==> cp < 0x80
    ensures |b| == 2 <==> 0x80 <= cp < 0x800
    ensures |b| == 3 <==> 0x800 <= cp < 0x10000
    ensures forall i :: 1 <= i < |b| ==> IsCont(b[i])
  {
    if cp < 0x80 then [cp]
    else
      // six bits at a time, from the low end
      var q1, r1 := cp / 64, cp % 64;
      if cp < 0x800 then [0xC0 + q1, 0x80 + r1]
      else
        var q2, r2 := q1 / 64, q1 % 64;
        if cp < 0x10000 then [0xE0 + q2, 0x80 + r2, 0x80 + r1]
        else [0xF0 + q2 / 64, 0x80 + q2 % 64, 0x80 + r2, 0x80 + r1]
  }

  /**
   * Reading one encoded character back: the lead byte gives the length, the
   * other bytes must be continuation bytes, and overlong forms, surrogates
   * and values past U+10FFFF are refused.
   */
  function Decode(b: seq<nat>): Option<nat>
  {
    if |b| == 1 && b[0] < 0x80 then Some(b[0])
    else if |b| == 2 && 0xC2 <= b[0] < 0xE0 && IsCont(b[1]) then
      Some((b[0] - 0xC0) * 64 + (b[1] - 0x80))
    else if |b| == 3 && 0xE0 <= b[0] < 0xF0 && IsCont(b[1]) && IsCont(b[2]) then
      var cp := (b[0] - 0xE0) * 4096 + (b[1] - 0x80) * 64 + (b[2] - 0x80);
      if 0x800 <= cp && !(0xD800 <= cp <= 0xDFFF) then Some(cp) else None
    else if |b| == 4 && 0xF0 <= b[0] < 0xF5 && IsCont(b[1]) && IsCont(b[2]) && IsCont(b[3]) then
      var cp := (b[0] - 0xF0) * 262144 + (b[1] - 0x80) * 4096 + (b[2] - 0x80) * 64 + (b[3] - 0x80);
      if 0x10000 <= cp <= 0x10FFFF then Some(cp) else None
    else None
  }

  /** Decoding an encoded scalar value gives it back. */
  lemma DecodeEncode(cp: nat)
    requires IsScalar(cp)
    ensures Decode(Encode(cp)) == Some(cp)
  {
    var q1, r1 := cp / 64, cp % 64;
    assert cp == 64 * q1 + r1;
    if cp >= 0x800 {
      var q2, r2 := q1 / 64, q1 % 64;
      assert q1 == 64 * q2 + r2;
      if cp >= 0x10000 {
        var q3, r3 := q2 / 64, q2 % 64;
        assert q2 == 64 * q3 + r3;
        assert cp == 262144 * q3 + 4096 * r3 + 64 * r2 + r1;
      } else {
        assert cp == 4096 * q2 + 64 * r2 + r1;
      }
    }
  }

  /** Every well-formed sequence is the encoding of the value it decodes to. */
  lemma EncodeDecode(b: seq<nat>)
    requires Decode(b).Some?
    ensures IsScalar(Decode(b).value) && Encode(Decode(b).value) == b
  {
    var cp := Decode(b).value;
    if |b| == 2 {
      SixBits(cp, b[0] - 0xC0, b[1] - 0x80);
    } else if |b| == 3 {
      var q1 := (b[0] - 0xE0) * 64 + (b[1] - 0x80);
      SixBits(cp, q1, b[2] - 0x80);
      SixBits(q1, b[0] - 0xE0, b[1] - 0x80);
    } else if |b| == 4 {
      var q2 := (b[0] - 0xF0) * 64 + (b[1] - 0x80);
      var q1 := q2 * 64 + (b[2] - 0x80);
      SixBits(cp, q1, b[3] - 0x80);
      SixBits(q1, q2, b[2] - 0x80);
      SixBits(q2, b[0] - 0xF0, b[1] - 0x80);
    }
  }

  /** The low six bits and the rest. */
  lemma SixBits(x: nat, q: nat, r: nat)
    requires r < 64 && x == 64 * q + r
    ensures x / 64 == q && x % 64 == r
  {
  }

  /** Different scalar values have different encodings. */
  lemma EncodeInjective(a: nat, c: nat)
    requires IsScalar(a) && IsScalar(c) && Encode(a) == Encode(c)
    ensures a == c
  {
    DecodeEncode(a);
    DecodeEncode(c);
  }
}
