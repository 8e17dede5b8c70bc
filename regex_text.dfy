/**
 * The text of one alternative of the emoji pattern, as
 * `bin/generate-unicode-regex.php` writes it with `sprintf`: `\xHH` for
 * each of the four UTF-8 bytes, a `[\xLO-\xHI]` class where the third or
 * fourth byte spans several values, and the leading `\x00` bytes of the
 * padding removed. `Parse` reads such a text back.
 */
module RegexText {
  import opened PhpArray
  import Hex

  /**
   * One alternative before it is written out: first and second byte, the
   * third bytes `lo3`..`hi3` and the fourth bytes `lo4`..`hi4`.
   */
  datatype Range = Range(b0: nat, b1: nat, lo3: nat, hi3: nat, lo4: nat, hi4: nat)

  /** The bytes written with two digits are bytes. */
  predicate ByteRange(r: Range)
  {
    r.b0 < 256 && r.b1 < 256 && r.lo4 < 256 && r.hi4 < 256
  }

  /** `\x%s` for a single value, `[\x%s-\x%s]` for two different ones. */
  function Atom(same: bool, lo: string, hi: string): string
  {
    if same then "\\x" + lo else "[\\x" + lo + "-\\x" + hi + "]"
  }

  /** The third bytes: `strtoupper(dechex(...))`, without padding. */
  function Third(r: Range): string
  {
    Atom(r.lo3 == r.hi3, Hex.HexDigits(r.lo3), Hex.HexDigits(r.hi3))
  }

  /** The fourth bytes: the two-digit strings the bytes were split into, upper-cased. */
  function Fourth(r: Range): string
    requires ByteRange(r)
  {
    Atom(r.lo4 == r.hi4, Hex.Hex2(r.lo4), Hex.Hex2(r.hi4))
  }

  /** The `sprintf('\x%s\x%s%s%s', ...)` text before the padding is removed. */
  function Expr(r: Range): string
    requires ByteRange(r)
  {
    "\\x" + Hex.Hex2(r.b0) + "\\x" + Hex.Hex2(r.b1) + Third(r) + Fourth(r)
  }

  /** `preg_replace('/^(\\\\x00)+/', '', $s)`: every leading literal `\x00` removed. */
  function StripNul(s: string): (r: string)
    ensures |r| <= |s| && r == s[|s| - |r|..]
    ensures !(|r| >= 4 && r[..4] == "\\x00")
    decreases |s|
  {
    if |s| >= 4 && s[..4] == "\\x00" then StripNul(s[4..]) else s
  }

  /** One alternative as the pattern holds it. */
  function Format(r: Range): string
    requires ByteRange(r)
  {
    StripNul(Expr(r))
  }

  /** The longest prefix of hexadecimal digits, and the rest. */
  function ReadHex(s: string): (r: (string, string))
    ensures r.0 + r.1 == s
    ensures forall i :: 0 <= i < |r.0| ==> Hex.IsHexChar(r.0[i])
    ensures |r.1| > 0 ==> !Hex.IsHexChar(r.1[0])
    decreases |s|
  {
    if |s| > 0 && Hex.IsHexChar(s[0]) then
      var (d, rest) := ReadHex(s[1..]);
      ([s[0]] + d, rest)
    else
      ([], s)
  }

  /** One `\xH…` or `[\xH…-\xH…]`: its lowest and highest value, and the text after it. */
  function ReadAtom(s: string): (r: Option<(nat, nat, string)>)
    ensures r.Some? ==> |r.value.2| < |s|
  {
    if |s| >= 2 && s[..2] == "\\x" then
      var (d, rest) := ReadHex(s[2..]);
      if |d| > 0 then Some((Hex.HexValue(d), Hex.HexValue(d), rest)) else None
    else if |s| >= 3 && s[..3] == "[\\x" then
      var (d1, r1) := ReadHex(s[3..]);
      if |d1| > 0 && |r1| >= 3 && r1[..3] == "-\\x" then
        var (d2, r2) := ReadHex(r1[3..]);
        if |d2| > 0 && |r2| >= 1 && r2[0] == ']' then
          Some((Hex.HexValue(d1), Hex.HexValue(d2), r2[1..]))
        else None
      else None
    else None
  }

  /** The whole text as a sequence of atoms. */
  function ReadAtoms(s: string): Option<seq<(nat, nat)>>
    decreases |s|
  {
    if |s| == 0 then Some([])
    else match ReadAtom(s)
      case None => None
      case Some((lo, hi, rest)) =>
        match ReadAtoms(rest)
        case None => None
        case Some(atoms) => Some([(lo, hi)] + atoms)
  }

  /**
   * Reading an alternative back: four atoms give all four bytes, three
   * mean the first byte was `\x00`, two mean the first two were.
   */
  function Parse(s: string): Option<Range>
  {
    match ReadAtoms(s)
    case None => None
    case Some(a) =>
      if |a| == 4 && a[0].0 == a[0].1 && a[1].0 == a[1].1 then
        Some(Range(a[0].0, a[1].0, a[2].0, a[2].1, a[3].0, a[3].1))
      else if |a| == 3 && a[0].0 == a[0].1 then
        Some(Range(0, a[0].0, a[1].0, a[1].1, a[2].0, a[2].1))
      else if |a| == 2 then
        Some(Range(0, 0, a[0].0, a[0].1, a[1].0, a[1].1))
      else None
  }

  /**
   * PCRE's reading of one alternative against a byte string: each `\x`
   * atom stands for one byte, which must lie in the atom's range, and the
   * alternative matches the string when there is one atom per byte.
   */
  predicate Accepts(e: string, bytes: seq<nat>)
  {
    match ReadAtoms(e)
    case None => false
    case Some(a) => AtomsAccept(a, bytes)
  }

  /** One atom per byte, each byte inside its atom's range. */
  predicate AtomsAccept(a: seq<(nat, nat)>, bytes: seq<nat>)
  {
    |a| == |bytes| && forall i :: 0 <= i < |bytes| ==> a[i].0 <= bytes[i] <= a[i].1
  }

  /** The atoms an alternative is written with: four, or three or two once the leading `\x00` are gone. */
  function Atoms(r: Range): (a: seq<(nat, nat)>)
    ensures |a| >= 2
  {
    if r.b0 != 0 then [(r.b0, r.b0), (r.b1, r.b1), (r.lo3, r.hi3), (r.lo4, r.hi4)]
    else if r.b1 != 0 then [(r.b1, r.b1), (r.lo3, r.hi3), (r.lo4, r.hi4)]
    else [(r.lo3, r.hi3), (r.lo4, r.hi4)]
  }

  /** Text that cannot continue a run of hexadecimal digits. */
  predicate Boundary(rest: string)
  {
    |rest| == 0 || rest[0] == '\\' || rest[0] == '[' || rest[0] == '-' || rest[0] == ']'
  }

  lemma {:induction false} ReadHexOf(d: string, rest: string)
    requires forall i :: 0 <= i < |d| ==> Hex.IsHexChar(d[i])
    requires Boundary(rest)
    ensures ReadHex(d + rest) == (d, rest)
    decreases |d|
  {
    if |d| > 0 {
      var s := d + rest;
      assert s[0] == d[0] && Hex.IsHexChar(s[0]);
      assert s[1..] == d[1..] + rest;
      ReadHexOf(d[1..], rest);
      assert [d[0]] + d[1..] == d;
    } else {
      assert d + rest == rest;
      assert |rest| > 0 ==> !Hex.IsHexChar(rest[0]);
    }
  }

  lemma ReadAtomSingle(s: string, d: string, rest: string)
    requires |d| > 0 && |s| >= 2 && s[..2] == "\\x" && s[2..] == d + rest
    requires ReadHex(d + rest) == (d, rest)
    ensures ReadAtom(s) == Some((Hex.HexValue(d), Hex.HexValue(d), rest))
  {
  }

  lemma ReadAtomSpan(s: string, d1: string, r1: string, d2: string, r2: string)
    requires |d1| > 0 && |s| >= 3 && s[..2] != "\\x" && s[..3] == "[\\x" && s[3..] == d1 + r1
    requires |d2| > 0 && |r1| >= 3 && r1[..3] == "-\\x" && r1[3..] == d2 + r2
    requires ReadHex(d1 + r1) == (d1, r1) && ReadHex(d2 + r2) == (d2, r2)
    requires |r2| >= 1 && r2[0] == ']'
    ensures ReadAtom(s) == Some((Hex.HexValue(d1), Hex.HexValue(d2), r2[1..]))
  {
  }

  lemma SingleShape(lo: string, rest: string)
    ensures |Atom(true, lo, lo) + rest| >= 2 && (Atom(true, lo, lo) + rest)[..2] == "\\x"
    ensures (Atom(true, lo, lo) + rest)[2..] == lo + rest
  {
    assert Atom(true, lo, lo) + rest == "\\x" + (lo + rest);
  }

  lemma SpanShape(lo: string, hi: string, rest: string)
    ensures var s := Atom(false, lo, hi) + rest;
      |s| >= 3 && s[..2] != "\\x" && s[..3] == "[\\x" && s[3..] == lo + ("-\\x" + (hi + ("]" + rest)))
  {
    var s := Atom(false, lo, hi) + rest;
    assert s == "[\\x" + (lo + ("-\\x" + (hi + ("]" + rest))));
    assert s[0] == '[';
  }

  /** `\x` and the digits of one value read back as that value. */
  lemma SingleReads(lo: string, vlo: nat, rest: string)
    requires |lo| > 0 && forall i :: 0 <= i < |lo| ==> Hex.IsHexChar(lo[i])
    requires Hex.HexValue(lo) == vlo && Boundary(rest)
    ensures ReadAtom(Atom(true, lo, lo) + rest) == Some((vlo, vlo, rest))
  {
    SingleShape(lo, rest);
    ReadHexOf(lo, rest);
    ReadAtomSingle(Atom(true, lo, lo) + rest, lo, rest);
  }

  /** A class `[\xlo-\xhi]` reads back as its two ends. */
  lemma SpanReads(lo: string, hi: string, vlo: nat, vhi: nat, rest: string)
    requires |lo| > 0 && forall i :: 0 <= i < |lo| ==> Hex.IsHexChar(lo[i])
    requires |hi| > 0 && forall i :: 0 <= i < |hi| ==> Hex.IsHexChar(hi[i])
    requires Hex.HexValue(lo) == vlo && Hex.HexValue(hi) == vhi && Boundary(rest)
    ensures ReadAtom(Atom(false, lo, hi) + rest) == Some((vlo, vhi, rest))
  {
    var r2 := "]" + rest;
    var r1 := "-\\x" + (hi + r2);
    SpanShape(lo, hi, rest);
    assert |r1| >= 3 && r1[..3] == "-\\x" && r1[3..] == hi + r2;
    assert r2[0] == ']' && r2[1..] == rest;
    ReadHexOf(lo, r1);
    ReadHexOf(hi, r2);
    ReadAtomSpan(Atom(false, lo, hi) + rest, lo, r1, hi, r2);
  }

  /** What an atom begins with. */
  lemma AtomBoundary(same: bool, lo: string, hi: string, rest: string)
    ensures Boundary(Atom(same, lo, hi) + rest)
    ensures |Atom(same, lo, hi) + rest| > 0
  {
  }

  lemma ReadAtomsCons(same: bool, lo: string, hi: string, vlo: nat, vhi: nat, rest: string, atoms: seq<(nat, nat)>)
    requires |lo| > 0 && |hi| > 0
    requires forall i :: 0 <= i < |lo| ==> Hex.IsHexChar(lo[i])
    requires forall i :: 0 <= i < |hi| ==> Hex.IsHexChar(hi[i])
    requires Hex.HexValue(lo) == vlo && Hex.HexValue(hi) == vhi
    requires same <==> vlo == vhi
    requires Boundary(rest) && ReadAtoms(rest) == Some(atoms)
    ensures ReadAtoms(Atom(same, lo, hi) + rest) == Some([(vlo, vhi)] + atoms)
  {
    if same {
      assert Atom(true, lo, hi) == Atom(true, lo, lo);
      SingleReads(lo, vlo, rest);
    } else {
      SpanReads(lo, hi, vlo, vhi, rest);
    }
    AtomBoundary(same, lo, hi, rest);
  }

  lemma ThirdDigits(r: Range)
    ensures |Hex.HexDigits(r.lo3)| > 0 && |Hex.HexDigits(r.hi3)| > 0
    ensures Hex.HexValue(Hex.HexDigits(r.lo3)) == r.lo3 && Hex.HexValue(Hex.HexDigits(r.hi3)) == r.hi3
  {
    Hex.HexRoundTrip(r.lo3);
    Hex.HexRoundTrip(r.hi3);
  }

  lemma FourthBoundary(r: Range)
    requires ByteRange(r)
    ensures Boundary(Fourth(r)) && |Fourth(r)| > 0
  {
    AtomBoundary(r.lo4 == r.hi4, Hex.Hex2(r.lo4), Hex.Hex2(r.hi4), []);
    assert Fourth(r) + [] == Fourth(r);
  }

  lemma FourthReads(r: Range)
    requires ByteRange(r)
    ensures ReadAtoms(Fourth(r)) == Some([(r.lo4, r.hi4)])
  {
    assert ReadAtoms([]) == Some([]);
    assert Boundary([]);
    ReadAtomsCons(r.lo4 == r.hi4, Hex.Hex2(r.lo4), Hex.Hex2(r.hi4), r.lo4, r.hi4, [], []);
    assert [(r.lo4, r.hi4)] + [] == [(r.lo4, r.hi4)];
    assert Atom(r.lo4 == r.hi4, Hex.Hex2(r.lo4), Hex.Hex2(r.hi4)) + [] == Fourth(r);
  }

  lemma TailBoundary(r: Range)
    requires ByteRange(r)
    ensures Boundary(Third(r) + Fourth(r)) && |Third(r) + Fourth(r)| > 0
  {
    AtomBoundary(r.lo3 == r.hi3, Hex.HexDigits(r.lo3), Hex.HexDigits(r.hi3), Fourth(r));
  }

  /** The third and fourth bytes read back as two atoms. */
  lemma TailReads(r: Range)
    requires ByteRange(r)
    ensures ReadAtoms(Third(r) + Fourth(r)) == Some([(r.lo3, r.hi3), (r.lo4, r.hi4)])
  {
    FourthBoundary(r);
    FourthReads(r);
    ThirdDigits(r);
    ReadAtomsCons(r.lo3 == r.hi3, Hex.HexDigits(r.lo3), Hex.HexDigits(r.hi3), r.lo3, r.hi3, Fourth(r), [(r.lo4, r.hi4)]);
    assert [(r.lo3, r.hi3)] + [(r.lo4, r.hi4)] == [(r.lo3, r.hi3), (r.lo4, r.hi4)];
  }

  /** The third-byte text never starts with `\x00`: only zero has a leading zero digit, and it has one digit. */
  lemma TailNotNul(r: Range)
    requires ByteRange(r)
    ensures !(|Third(r) + Fourth(r)| >= 4 && (Third(r) + Fourth(r))[..4] == "\\x00")
  {
    var t, f := Third(r), Fourth(r);
    var s := t + f;
    FourthBoundary(r);
    if r.lo3 != r.hi3 {
      assert s[0] == t[0] == '[';
    } else {
      var d := Hex.HexDigits(r.lo3);
      Hex.HexNoLeadingZero(r.lo3);
      assert t == "\\x" + d;
      if |s| >= 4 {
        if d[0] == '0' {
          assert d == "0";
          assert s[3] == f[0];
        } else {
          assert s[2] == d[0];
        }
      }
    }
  }

  /** `preg_replace` on a text with two two-digit bytes in front of a tail that does not start with `\x00`. */
  lemma StripPrefix(h0: string, h1: string, t: string, f: string)
    requires |h0| == 2 && |h1| == 2
    requires !(|t + f| >= 4 && (t + f)[..4] == "\\x00")
    ensures var e := "\\x" + h0 + "\\x" + h1 + t + f;
      StripNul(e) == if h0 != "00" then e else if h1 != "00" then "\\x" + h1 + t + f else t + f
  {
    var tail := t + f;
    var rest := "\\x" + h1 + tail;
    assert "\\x" + h0 + "\\x" + h1 + t + f == "\\x" + h0 + rest;
    assert "\\x" + h1 + t + f == rest;
    StripOne(h0, rest);
    StripOne(h1, tail);
  }

  /** One two-digit byte in front: removed with what follows stripped when it is `00`, else the text is kept. */
  lemma StripOne(h: string, rest: string)
    requires |h| == 2
    ensures StripNul("\\x" + h + rest) == if h == "00" then StripNul(rest) else "\\x" + h + rest
  {
    var e := "\\x" + h + rest;
    assert e[..4] == "\\x" + h;
    assert e[4..] == rest;
    if h != "00" {
      assert e[..4][2..] == h;
    }
  }

  /** Which leading bytes the removal of `\x00` takes away. */
  lemma StripShape(r: Range)
    requires ByteRange(r)
    ensures r.b0 != 0 ==> Format(r) == Expr(r)
    ensures r.b0 == 0 && r.b1 != 0 ==> Format(r) == "\\x" + Hex.Hex2(r.b1) + Third(r) + Fourth(r)
    ensures r.b0 == 0 && r.b1 == 0 ==> Format(r) == Third(r) + Fourth(r)
  {
    TailNotNul(r);
    StripPrefix(Hex.Hex2(r.b0), Hex.Hex2(r.b1), Third(r), Fourth(r));
    assert r.b0 == 0 ==> Hex.Hex2(r.b0) == "00";
    assert r.b1 == 0 ==> Hex.Hex2(r.b1) == "00";
  }

  /** A byte written as `\xHH` in front of text that reads as atoms. */
  lemma PrefixReads(h: string, v: nat, rest: string, atoms: seq<(nat, nat)>)
    requires |h| == 2 && forall i :: 0 <= i < 2 ==> Hex.IsHexChar(h[i])
    requires Hex.HexValue(h) == v && Boundary(rest) && ReadAtoms(rest) == Some(atoms)
    ensures ReadAtoms("\\x" + h + rest) == Some([(v, v)] + atoms)
    ensures Boundary("\\x" + h + rest)
  {
    ReadAtomsCons(true, h, h, v, v, rest, atoms);
    assert Atom(true, h, h) + rest == "\\x" + h + rest;
  }

  lemma SameReads(e: string, x: string, atoms: seq<(nat, nat)>)
    requires e == x && ReadAtoms(x) == Some(atoms)
    ensures ReadAtoms(e) == Some(atoms)
  {
  }

  lemma FormatReadsFull(r: Range)
    requires ByteRange(r) && r.b0 != 0
    ensures ReadAtoms(Format(r)) == Some([(r.b0, r.b0), (r.b1, r.b1), (r.lo3, r.hi3), (r.lo4, r.hi4)])
  {
    var tail := Third(r) + Fourth(r);
    var atoms := [(r.lo3, r.hi3), (r.lo4, r.hi4)];
    var a1 := "\\x" + Hex.Hex2(r.b1) + tail;
    var e := "\\x" + Hex.Hex2(r.b0) + a1;
    FullShape(r);
    SecondReads(r, tail, a1);
    var all := [(r.b0, r.b0), (r.b1, r.b1), (r.lo3, r.hi3), (r.lo4, r.hi4)];
    assert [(r.b0, r.b0)] + ([(r.b1, r.b1)] + atoms) == all;
    PrefixReads(Hex.Hex2(r.b0), r.b0, a1, [(r.b1, r.b1)] + atoms);
    SameReads(Format(r), e, all);
  }

  lemma FullShape(r: Range)
    requires ByteRange(r) && r.b0 != 0
    ensures Format(r) == "\\x" + Hex.Hex2(r.b0) + ("\\x" + Hex.Hex2(r.b1) + (Third(r) + Fourth(r)))
  {
    StripShape(r);
  }

  /** The text from the second byte on reads as the last three atoms and starts at an atom boundary. */
  lemma SecondReads(r: Range, tail: string, a1: string)
    requires ByteRange(r) && tail == Third(r) + Fourth(r) && a1 == "\\x" + Hex.Hex2(r.b1) + tail
    ensures Boundary(a1) && ReadAtoms(a1) == Some([(r.b1, r.b1)] + [(r.lo3, r.hi3), (r.lo4, r.hi4)])
  {
    TailReads(r);
    TailBoundary(r);
    PrefixReads(Hex.Hex2(r.b1), r.b1, tail, [(r.lo3, r.hi3), (r.lo4, r.hi4)]);
  }

  lemma ThreeShape(r: Range)
    requires ByteRange(r) && r.b0 == 0 && r.b1 != 0
    ensures Format(r) == "\\x" + Hex.Hex2(r.b1) + (Third(r) + Fourth(r))
  {
    StripShape(r);
  }

  lemma FormatReadsThree(r: Range)
    requires ByteRange(r) && r.b0 == 0 && r.b1 != 0
    ensures ReadAtoms(Format(r)) == Some([(r.b1, r.b1), (r.lo3, r.hi3), (r.lo4, r.hi4)])
  {
    var tail := Third(r) + Fourth(r);
    var atoms := [(r.lo3, r.hi3), (r.lo4, r.hi4)];
    ThreeShape(r);
    TailReads(r);
    TailBoundary(r);
    PrefixReads(Hex.Hex2(r.b1), r.b1, tail, atoms);
    assert [(r.b1, r.b1)] + atoms == [(r.b1, r.b1), (r.lo3, r.hi3), (r.lo4, r.hi4)];
  }

  lemma FormatReadsTwo(r: Range)
    requires ByteRange(r) && r.b0 == 0 && r.b1 == 0
    ensures ReadAtoms(Format(r)) == Some([(r.lo3, r.hi3), (r.lo4, r.hi4)])
  {
    StripShape(r);
    TailReads(r);
  }
  /** An alternative reads back as the atoms it was written with. */
  lemma FormatAtoms(r: Range)
    requires ByteRange(r)
    ensures ReadAtoms(Format(r)) == Some(Atoms(r))
  {
    if r.b0 != 0 {
      FormatReadsFull(r);
    } else if r.b1 != 0 {
      FormatReadsThree(r);
    } else {
      FormatReadsTwo(r);
    }
  }


  lemma ParseAtoms(s: string, a: seq<(nat, nat)>)
    requires ReadAtoms(s) == Some(a)
    ensures |a| == 4 && a[0].0 == a[0].1 && a[1].0 == a[1].1 ==> Parse(s) == Some(Range(a[0].0, a[1].0, a[2].0, a[2].1, a[3].0, a[3].1))
    ensures |a| == 3 && a[0].0 == a[0].1 ==> Parse(s) == Some(Range(0, a[0].0, a[1].0, a[1].1, a[2].0, a[2].1))
    ensures |a| == 2 ==> Parse(s) == Some(Range(0, 0, a[0].0, a[0].1, a[1].0, a[1].1))
  {
  }

  /** Reading an alternative back gives the range it was written for. */
  lemma ParseFormat(r: Range)
    requires ByteRange(r)
    ensures Parse(Format(r)) == Some(r)
  {
    var a := if r.b0 != 0 then [(r.b0, r.b0), (r.b1, r.b1), (r.lo3, r.hi3), (r.lo4, r.hi4)]
      else if r.b1 != 0 then [(r.b1, r.b1), (r.lo3, r.hi3), (r.lo4, r.hi4)]
      else [(r.lo3, r.hi3), (r.lo4, r.hi4)];
    assert ReadAtoms(Format(r)) == Some(a) by {
      if r.b0 != 0 {
        FormatReadsFull(r);
      } else if r.b1 != 0 {
        FormatReadsThree(r);
      } else {
        FormatReadsTwo(r);
      }
    }
    ParseAtoms(Format(r), a);
  }

  /** Different ranges are written differently. */
  lemma FormatInjective(r: Range, s: Range)
    requires ByteRange(r) && ByteRange(s) && Format(r) == Format(s)
    ensures r == s
  {
    ParseFormat(r);
    ParseFormat(s);
  }
}
