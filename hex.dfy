/**
 * Hexadecimal and decimal digit strings: `dechex`/`sprintf('%X')` give the
 * upper-case hexadecimal digits of a number without leading zeros,
 * `sprintf('%04X')` pads them to four, `hexdec` reads them back.
 */
module Hex {
  import opened PhpString

  predicate IsDecChar(c: char)
  {
    '0' <= c <= '9'
  }

  predicate IsHexChar(c: char)
  {
    '0' <= c <= '9' || 'A' <= c <= 'F' || 'a' <= c <= 'f'
  }

  /** The upper-case digit for `d`. */
  function HexDigit(d: nat): (c: char)
    requires d < 16
    ensures IsHexChar(c) && !('a' <= c <= 'f')
    ensures DigitValue(c) == d
  {
    if d < 10 then ('0' as int + d) as char else ('A' as int + d - 10) as char
  }

  /** What one hexadecimal digit is worth, either case. */
  function DigitValue(c: char): (d: nat)
    requires IsHexChar(c)
    ensures d < 16
  {
    if '0' <= c <= '9' then c as int - '0' as int
    else if 'A' <= c <= 'F' then c as int - 'A' as int + 10
    else c as int - 'a' as int + 10
  }

  /** `strtoupper(dechex($n))`: upper-case digits, no leading zeros. */
  function HexDigits(n: nat): (s: string)
    ensures |s| >= 1
    ensures forall i :: 0 <= i < |s| ==> IsHexChar(s[i]) && !('a' <= s[i] <= 'f')
    decreases n
  {
    if n < 16 then [HexDigit(n)] else HexDigits(n / 16) + [HexDigit(n % 16)]
  }

  /** `hexdec($s)`: the hexadecimal digits of `s` read as a number; other characters are skipped. */
  function HexValue(s: string): nat
    decreases |s|
  {
    if |s| == 0 then 0
    else if IsHexChar(s[|s| - 1]) then HexValue(s[..|s| - 1]) * 16 + DigitValue(s[|s| - 1])
    else HexValue(s[..|s| - 1])
  }

  /** Reading back the digits `dechex` wrote gives the number again. */
  lemma {:induction false} HexRoundTrip(n: nat)
    ensures HexValue(HexDigits(n)) == n
  {
    if n >= 16 {
      var s := HexDigits(n);
      assert s[..|s| - 1] == HexDigits(n / 16);
      HexRoundTrip(n / 16);
    }
  }

  /** Different numbers have different digit strings. */
  lemma HexInjective(m: nat, n: nat)
    requires HexDigits(m) == HexDigits(n)
    ensures m == n
  {
    HexRoundTrip(m);
    HexRoundTrip(n);
  }

  /** Only zero is written with a leading zero digit. */
  lemma {:induction false} HexNoLeadingZero(n: nat)
    ensures HexDigits(n)[0] == '0' ==> n == 0
  {
    if n >= 16 {
      HexNoLeadingZero(n / 16);
    }
  }

  function Pow16(k: nat): nat
  {
    if k == 0 then 1 else 16 * Pow16(k - 1)
  }

  /** A number of at least `16^k` needs more than `k` digits. */
  lemma {:induction false} HexLengthAtLeast(n: nat, k: nat)
    requires n >= Pow16(k)
    ensures |HexDigits(n)| >= k + 1
  {
    if k > 0 {
      assert n / 16 >= Pow16(k - 1);
      HexLengthAtLeast(n / 16, k - 1);
    }
  }

  /** `s` left-padded with `'0'` to at least `w` characters. */
  function PadLeft(s: string, w: nat): (r: string)
    ensures |r| == if |s| >= w then |s| else w
    ensures r[|r| - |s|..] == s
    ensures forall i :: 0 <= i < |r| - |s| ==> r[i] == '0'
    decreases w - |s|
  {
    if |s| >= w then s else PadLeft(['0'] + s, w)
  }

  /** Leading zeros do not change the value. */
  lemma {:induction false} ZerosValue(z: nat, s: string)
    requires forall i :: 0 <= i < |s| ==> IsHexChar(s[i])
    ensures HexValue(Zeros(z) + s) == HexValue(s)
    decreases |s|
  {
    if |s| == 0 {
      ZerosOnlyValue(z);
      assert Zeros(z) + s == Zeros(z);
    } else {
      assert (Zeros(z) + s)[..|Zeros(z) + s| - 1] == Zeros(z) + s[..|s| - 1];
      ZerosValue(z, s[..|s| - 1]);
    }
  }

  function Zeros(z: nat): (r: string)
    ensures |r| == z && forall i :: 0 <= i < z ==> r[i] == '0'
  {
    seq(z, i => '0')
  }

  lemma {:induction false} ZerosOnlyValue(z: nat)
    ensures HexValue(Zeros(z)) == 0
  {
    if z > 0 {
      assert Zeros(z)[..z - 1] == Zeros(z - 1);
      ZerosOnlyValue(z - 1);
    }
  }

  /** `sprintf('%04X', $n)`: upper-case hexadecimal, zero-padded to at least four digits. */
  function Hex4(n: nat): (s: string)
    ensures |s| >= 4
    ensures forall i :: 0 <= i < |s| ==> IsHexChar(s[i])
  {
    PadLeft(HexDigits(n), 4)
  }

  /** Left padding puts exactly the missing zeros in front. */
  lemma {:induction false} PadLeftZeros(s: string, w: nat)
    ensures PadLeft(s, w) == Zeros(|PadLeft(s, w)| - |s|) + s
    decreases w - |s|
  {
    if |s| < w {
      var k := |PadLeft(s, w)| - |s|;
      PadLeftZeros(['0'] + s, w);
      assert Zeros(k - 1) + (['0'] + s) == Zeros(k) + s by {
        assert Zeros(k - 1) + ['0'] == Zeros(k);
      }
    }
  }

  /** The padded digits still read back as the number. */
  lemma Hex4RoundTrip(n: nat)
    ensures HexValue(Hex4(n)) == n
  {
    var s := HexDigits(n);
    PadLeftZeros(s, 4);
    ZerosValue(|Hex4(n)| - |s|, s);
    HexRoundTrip(n);
  }

  /** From 0x1000 on, `%04X` adds no padding. */
  lemma Hex4Unpadded(n: nat)
    requires n >= 0x1000
    ensures Hex4(n) == HexDigits(n)
  {
    assert Pow16(3) == 0x1000;
    HexLengthAtLeast(n, 3);
  }

  /** `sprintf('%02X', $b)` for a byte: always two upper-case digits, which `hexdec` reads back as the byte. */
  function Hex2(b: nat): (s: string)
    requires b < 256
    ensures |s| == 2 && forall i :: 0 <= i < 2 ==> IsHexChar(s[i])
    ensures HexValue(s) == b
    ensures s == "00" ==> b == 0
  {
    var s := [HexDigit(b / 16), HexDigit(b % 16)];
    assert s[..1] == [s[0]] && [s[0]][..0] == [];
    assert HexValue([s[0]]) == b / 16;
    assert HexValue(s) == HexValue(s[..1]) * 16 + DigitValue(s[1]);
    s
  }

  /** What a string of decimal digits is worth. */
  function DecValue(s: string): nat
    requires forall i :: 0 <= i < |s| ==> IsDecChar(s[i])
    decreases |s|
  {
    if |s| == 0 then 0
    else
      var c := s[|s| - 1];
      assert IsDecChar(c);
      DecValue(s[..|s| - 1]) * 10 + (c as int - '0' as int)
  }

  /** The decimal digits of `n`, no leading zeros. */
  function DecDigits(n: nat): (s: string)
    ensures |s| >= 1
    ensures forall i :: 0 <= i < |s| ==> IsDecChar(s[i])
    decreases n
  {
    if n < 10 then [('0' as int + n) as char] else DecDigits(n / 10) + [('0' as int + n % 10) as char]
  }

  lemma {:induction false} DecRoundTrip(n: nat)
    ensures DecValue(DecDigits(n)) == n
  {
    if n >= 10 {
      var s := DecDigits(n);
      assert s[..|s| - 1] == DecDigits(n / 10);
      DecRoundTrip(n / 10);
    }
  }

  /** The hexadecimal spellings of the codepoints. */
  function HexParts(cps: seq<nat>): (r: seq<string>)
    ensures |r| == |cps| && forall i :: 0 <= i < |cps| ==> r[i] == HexDigits(cps[i])
  {
    seq(|cps|, i requires 0 <= i < |cps| => HexDigits(cps[i]))
  }

  /**
   * `implode('-', $sequence)` where each element is `sprintf('%X', $cp)`:
   * the key a codepoint sequence is looked up under.
   */
  function HexKey(cps: seq<nat>): string
  {
    Join("-", HexParts(cps))
  }

  /** `array_map('hexdec', explode('-', $hexcode))`: the codepoints a hexcode names. */
  function ParseKey(hexcode: string): (cps: seq<nat>)
    ensures |cps| >= 1
  {
    var parts := Explode('-', hexcode);
    seq(|parts|, i requires 0 <= i < |parts| => HexValue(parts[i]))
  }

  /** Hex digits hold no `-`. */
  lemma HexDigitsNoHyphen(n: nat)
    ensures '-' !in HexDigits(n)
  {
  }

  /** A formatted key splits back into the digit strings it was joined from. */
  lemma ExplodeHexKey(cps: seq<nat>)
    requires |cps| > 0
    ensures Explode('-', HexKey(cps)) == HexParts(cps)
  {
    var parts := HexParts(cps);
    forall i | 0 <= i < |parts| ensures '-' !in parts[i] {
      HexDigitsNoHyphen(cps[i]);
    }
    ExplodeJoin('-', parts);
  }

  /** Parsing a key that was formatted from codepoints gives the codepoints back. */
  lemma ParseHexKey(cps: seq<nat>)
    requires |cps| > 0
    ensures ParseKey(HexKey(cps)) == cps
  {
    var parts := HexParts(cps);
    ExplodeHexKey(cps);
    forall i | 0 <= i < |cps| ensures HexValue(parts[i]) == cps[i] {
      HexRoundTrip(cps[i]);
    }
  }

  /** Different codepoint sequences are looked up under different keys. */
  lemma HexKeyInjective(a: seq<nat>, b: seq<nat>)
    requires HexKey(a) == HexKey(b)
    ensures a == b
  {
    if |a| > 0 && |b| > 0 {
      ParseHexKey(a);
      ParseHexKey(b);
    }
  }

  /** The length of a key plus one: each codepoint's digits and one separator. */
  function Width(cps: seq<nat>): nat
    decreases |cps|
  {
    if |cps| == 0 then 0 else |HexDigits(cps[0])| + 1 + Width(cps[1..])
  }

  lemma {:induction false} HexKeyLength(cps: seq<nat>)
    requires |cps| > 0
    ensures |HexKey(cps)| + 1 == Width(cps)
    decreases |cps|
  {
    if |cps| > 1 {
      assert HexParts(cps)[1..] == HexParts(cps[1..]);
      HexKeyLength(cps[1..]);
    }
  }

  lemma {:induction false} WidthAppend(a: seq<nat>, b: seq<nat>)
    ensures Width(a + b) == Width(a) + Width(b)
    decreases |a|
  {
    if |a| == 0 {
      assert a + b == b;
    } else {
      assert (a + b)[1..] == a[1..] + b;
      WidthAppend(a[1..], b);
    }
  }

  lemma {:induction false} WidthAtLeast(a: seq<nat>)
    ensures Width(a) >= 2 * |a|
    decreases |a|
  {
    if |a| > 0 {
      WidthAtLeast(a[1..]);
    }
  }

  /** A sequence found strictly inside another has a strictly shorter key. */
  lemma KeyShorter(w: seq<nat>, h: seq<nat>)
    requires |w| > 0 && Occurs(w, h) && w != h
    ensures |HexKey(w)| < |HexKey(h)|
  {
    var p := OccursWitness(w, h);
    var pre, post := h[..p], h[p + |w|..];
    assert h == pre + w + post;
    WidthAppend(pre + w, post);
    WidthAppend(pre, w);
    WidthAtLeast(pre);
    WidthAtLeast(post);
    assert |pre| + |post| > 0;
    HexKeyLength(w);
    HexKeyLength(h);
  }
}
