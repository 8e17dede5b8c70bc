/**
 * HTML numeric character references (`&#...;`): the normalisation that
 * `entitiesToUnicode` applies before its table lookup, and the canonical
 * entity runs `&#xHEX;&#xHEX;...` the derived tables are keyed by.
 */
module Entities {
  import opened PhpArray
  import opened PhpString
  import Hex

  const AMP: nat := 38
  const HASH: nat := 35
  const SMALL_X: nat := 120
  const SEMI: nat := 59

  predicate IsDigit(c: nat)
  {
    48 <= c <= 57
  }

  /** `[a-zA-Z0-9]` */
  predicate IsAlnum(c: nat)
  {
    48 <= c <= 57 || 65 <= c <= 90 || 97 <= c <= 122
  }

  /** ASCII `strtoupper` on one codepoint. */
  function UpperCp(c: nat): nat
  {
    if 97 <= c <= 122 then c - 32 else c
  }

  function Upper(t: Text): (r: Text)
    ensures |r| == |t|
    ensures forall i :: 0 <= i < |t| ==> r[i] == UpperCp(t[i])
  {
    seq(|t|, i requires 0 <= i < |t| => UpperCp(t[i]))
  }

  /** The first position at or after `i` that does not hold an alphanumeric. */
  function AlnumEnd(t: Text, i: nat): (j: nat)
    requires i <= |t|
    ensures i <= j <= |t|
    ensures forall k :: i <= k < j ==> IsAlnum(t[k])
    ensures j < |t| ==> !IsAlnum(t[j])
    decreases |t| - i
  {
    if i == |t| || !IsAlnum(t[i]) then i else AlnumEnd(t, i + 1)
  }

  /**
   * The code of the reference at the start of `t`, as the pattern
   * `/\&\#(x?[a-zA-Z0-9]*?)\;/` finds it: `&#`, alphanumerics, `;`.
   */
  function EntityCode(t: Text): (r: Option<Text>)
    ensures r.Some? ==> |r.value| + 3 <= |t|
    ensures r.Some? ==> t[..|r.value| + 3] == [AMP, HASH] + r.value + [SEMI]
    ensures r.Some? ==> forall k :: 0 <= k < |r.value| ==> IsAlnum(r.value[k])
  {
    if |t| >= 2 && t[0] == AMP && t[1] == HASH then
      var j := AlnumEnd(t, 2);
      if j < |t| && t[j] == SEMI then Some(t[2..j]) else None
    else None
  }

  /** The canonical reference for codepoint `c`: `&#x` + upper-case hex + `;`. */
  function Entity(c: nat): (e: Text)
    ensures |e| >= 5 && e[..3] == [AMP, HASH, SMALL_X] && e[|e| - 1] == SEMI
  {
    Lit("&#x") + Lit(Hex.HexDigits(c)) + Lit(";")
  }

  /**
   * What the callback makes of a code: `x` and anything after it
   * upper-cased, or a decimal number rewritten as upper-case hex. `None`
   * marks the malformed codes (empty, or neither `x...` nor all digits)
   * that this model leaves as they are.
   */
  function Canonical(code: Text): (r: Option<Text>)
  {
    if |code| > 0 && code[0] == SMALL_X then Some(Lit("&#x") + Upper(code[1..]) + Lit(";"))
    else if |code| > 0 && forall i :: 0 <= i < |code| ==> IsDigit(code[i]) then
      Some(Entity(Hex.DecValue(Chars(code))))
    else None
  }

  /** The `preg_replace_callback` pass of `entitiesToUnicode`. */
  function Normalize(t: Text): Text
    decreases |t|
  {
    if |t| == 0 then []
    else match EntityCode(t)
      case Some(code) =>
        var n := |code| + 3;
        (match Canonical(code) case Some(e) => e case None => t[..n]) + Normalize(t[n..])
      case None => [t[0]] + Normalize(t[1..])
  }

  /** The concatenated references for a codepoint sequence, in order. */
  function EntityRun(cps: seq<nat>): (r: Text)
    ensures cps == [] <==> r == []
    decreases |cps|
  {
    if |cps| == 0 then [] else Entity(cps[0]) + EntityRun(cps[1..])
  }

  /** Text without an ampersand passes through the normalisation unchanged. */
  lemma {:induction false} NormalizeNoAmp(t: Text)
    requires forall i :: 0 <= i < |t| ==> t[i] != AMP
    ensures Normalize(t) == t
    decreases |t|
  {
    if |t| > 0 {
      NormalizeNoAmp(t[1..]);
    }
  }

  lemma {:induction false} AlnumEndAt(t: Text, i: nat, j: nat)
    requires i <= j < |t|
    requires forall k :: i <= k < j ==> IsAlnum(t[k])
    requires !IsAlnum(t[j])
    ensures AlnumEnd(t, i) == j
    decreases j - i
  {
    if i < j {
      AlnumEndAt(t, i + 1, j);
    }
  }

  /** The pattern finds `&#code;` at the start of text that begins with it. */
  lemma EntityCodeOf(code: Text, rest: Text)
    requires forall k :: 0 <= k < |code| ==> IsAlnum(code[k])
    ensures EntityCode([AMP, HASH] + code + [SEMI] + rest) == Some(code)
  {
    var t := [AMP, HASH] + code + [SEMI] + rest;
    AlnumEndAt(t, 2, |code| + 2);
    assert t[2..|code| + 2] == code;
  }

  /** A hex reference `&#xh;` keeps its digits and has them upper-cased. */
  lemma NormalizeHexEntity(h: Text, rest: Text)
    requires forall k :: 0 <= k < |h| ==> IsAlnum(h[k])
    ensures Normalize(Lit("&#x") + h + Lit(";") + rest) == Lit("&#x") + Upper(h) + Lit(";") + Normalize(rest)
  {
    var code := [SMALL_X] + h;
    var t := Lit("&#x") + h + Lit(";") + rest;
    assert t == [AMP, HASH] + code + [SEMI] + rest;
    EntityCodeOf(code, rest);
    assert code[1..] == h;
    assert t[|code| + 3..] == rest;
  }

  /** A decimal reference `&#n;` becomes the canonical hex reference for `n`. */
  lemma NormalizeDecimalEntity(n: nat, rest: Text)
    ensures Normalize(Lit("&#") + Lit(Hex.DecDigits(n)) + Lit(";") + rest) == Entity(n) + Normalize(rest)
  {
    var code := Lit(Hex.DecDigits(n));
    var t := Lit("&#") + code + Lit(";") + rest;
    assert t == [AMP, HASH] + code + [SEMI] + rest;
    EntityCodeOf(code, rest);
    CharsLit(Hex.DecDigits(n));
    Hex.DecRoundTrip(n);
    assert t[|code| + 3..] == rest;
  }

  /** Canonical references are left as they are. */
  lemma NormalizeEntity(c: nat, rest: Text)
    ensures Normalize(Entity(c) + rest) == Entity(c) + Normalize(rest)
  {
    var h := Lit(Hex.HexDigits(c));
    assert Upper(h) == h;
    NormalizeHexEntity(h, rest);
  }

  /** A canonical entity run is a fixed point of the normalisation. */
  lemma {:induction false} NormalizeRun(cps: seq<nat>, rest: Text)
    ensures Normalize(EntityRun(cps) + rest) == EntityRun(cps) + Normalize(rest)
    decreases |cps|
  {
    if |cps| == 0 {
      assert EntityRun(cps) + rest == rest;
    } else {
      NormalizeRun(cps[1..], rest);
      NormalizeRunCons(cps[0], EntityRun(cps[1..]), rest);
    }
  }

  lemma NormalizeRunCons(c: nat, r1: Text, rest: Text)
    requires Normalize(r1 + rest) == r1 + Normalize(rest)
    ensures Normalize(Entity(c) + r1 + rest) == Entity(c) + r1 + Normalize(rest)
  {
    var e := Entity(c);
    assert e + r1 + rest == e + (r1 + rest);
    NormalizeEntity(c, r1 + rest);
  }

  /** `&` opens every reference and appears nowhere else in it; `;` only closes it. */
  lemma EntityShape(c: nat)
    ensures Entity(c)[0] == AMP
    ensures forall q :: 1 <= q < |Entity(c)| ==> Entity(c)[q] != AMP
    ensures forall q :: 0 <= q < |Entity(c)| - 1 ==> Entity(c)[q] != SEMI
  {
    var h := Hex.HexDigits(c);
    assert Entity(c) == [AMP, HASH, SMALL_X] + Lit(h) + [SEMI];
    assert forall q :: 0 <= q < |h| ==> Lit(h)[q] != AMP && Lit(h)[q] != SEMI;
  }

  /** When one reference-led text is a prefix of another, the two leading references agree. */
  lemma EntityPrefix(a: nat, b: nat, x: Text, y: Text)
    requires Entity(a) + x <= Entity(b) + y
    ensures a == b && x <= y
  {
    var ea, eb := Entity(a), Entity(b);
    var k, s := ea + x, eb + y;
    EntityShape(a);
    EntityShape(b);
    var l, m := |ea|, |eb|;
    assert k[l - 1] == SEMI && s[m - 1] == SEMI;
    PrefixIndex(k, s, m - 1);
    ConcatIndex(ea, x, m - 1);
    if l < m {
      assert false;
    }
    if m < l {
      assert false;
    }
    assert ea == s[..l] == eb;
    var ha, hb := Hex.HexDigits(a), Hex.HexDigits(b);
    assert Lit(ha) == ea[3..l - 1] == eb[3..m - 1] == Lit(hb);
    assert ha == hb by {
      assert |ha| == |hb|;
      forall q | 0 <= q < |ha| ensures ha[q] == hb[q] {
        assert Lit(ha)[q] == Lit(hb)[q];
      }
    }
    Hex.HexInjective(a, b);
    assert k[l..] == x && s[l..] == y;
  }

  lemma PrefixIndex(k: Text, s: Text, q: int)
    ensures k <= s && 0 <= q < |k| ==> k[q] == s[q]
  {
  }

  lemma ConcatIndex(a: Text, b: Text, q: int)
    ensures 0 <= q < |a| ==> (a + b)[q] == a[q]
  {
  }

  /** A run that is a prefix of another run spells a prefix of its codepoints. */
  lemma {:induction false} RunPrefix(a: seq<nat>, h: seq<nat>)
    requires EntityRun(a) <= EntityRun(h)
    ensures a <= h
    decreases |a|
  {
    if |a| > 0 {
      assert h != [];
      EntityPrefix(a[0], h[0], EntityRun(a[1..]), EntityRun(h[1..]));
      RunPrefix(a[1..], h[1..]);
      assert a == [a[0]] + a[1..] && h == [h[0]] + h[1..];
    }
  }

  /** Different codepoint sequences have different runs. */
  lemma RunInjective(a: seq<nat>, h: seq<nat>)
    requires EntityRun(a) == EntityRun(h)
    ensures a == h
  {
    RunPrefix(a, h);
    RunPrefix(h, a);
  }

  /** A run found inside another run spells a contiguous piece of its codepoints. */
  lemma {:induction false} RunInfix(a: seq<nat>, h: seq<nat>)
    requires |a| > 0 && Occurs(EntityRun(a), EntityRun(h))
    ensures Occurs(a, h)
    decreases |h|
  {
    var k := EntityRun(a);
    var p := OccursWitness(k, EntityRun(h));
    assert k[0] == AMP by { EntityShape(a[0]); }
    if h == [] {
      assert false;
    } else {
      var e := Entity(h[0]);
      assert EntityRun(h) == e + EntityRun(h[1..]);
      if p == 0 {
        RunPrefix(a, h);
      } else if p < |e| {
        EntityShape(h[0]);
        assert false;
      } else {
        assert EntityRun(h)[p..] == EntityRun(h[1..])[p - |e|..];
        OccursFrom(k, EntityRun(h[1..]), p - |e|);
        RunInfix(a, h[1..]);
      }
    }
  }
}
