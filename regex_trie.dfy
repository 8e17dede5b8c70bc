/**
 * The byte trie the regex generator builds (`bin/generate-unicode-regex.php`):
 * every codepoint is encoded in UTF-8, left-padded with zero bytes to four
 * bytes, and filed under its first, second and third byte, with the fourth
 * byte appended to the list at the end of that path.
 */
module RegexTrie {
  import opened PhpArray
  import Utf8

  /** `n` zero bytes in front of `b`. */
  function ZeroPad(n: nat, b: seq<nat>): (r: seq<nat>)
    ensures |r| == n + |b| && r[n..] == b
    ensures forall i :: 0 <= i < n ==> r[i] == 0
  {
    seq(n, i => 0) + b
  }

  lemma ZeroPadCons(n: nat, b: seq<nat>)
    ensures [0] + ZeroPad(n, b) == ZeroPad(n + 1, b)
  {
  }

  /** What the padding loop makes of a byte list: four bytes, unless there were more already. */
  function Pad4(b: seq<nat>): (r: seq<nat>)
    ensures |b| <= 4 ==> |r| == 4 && r[4 - |b|..] == b && forall i :: 0 <= i < 4 - |b| ==> r[i] == 0
    ensures |b| > 4 ==> r == b
  {
    if |b| >= 4 then b else ZeroPad(4 - |b|, b)
  }

  /** The zero bytes still missing in front of `n` bytes after `k` passes of the padding loop. */
  function Deficit(k: nat, n: nat): nat
  {
    if k <= n then 0 else k - n
  }

  /** The `range(0, 3)` loop that pushes `'00'` bytes in front while there are too few. */
  method PadBytes(bytes: seq<nat>) returns (padded: seq<nat>)
    ensures padded == Pad4(bytes)
  {
    padded := bytes;
    for padding := 0 to 4
      invariant padded == ZeroPad(Deficit(padding, |bytes|), bytes)
    {
      PadStep(bytes, padding);
      if padding >= |padded| {
        padded := [0] + padded;
      }
    }
  }

  /** One pass of the padding loop. */
  lemma PadStep(bytes: seq<nat>, padding: nat)
    ensures padding >= Deficit(padding, |bytes|) + |bytes| ==>
      [0] + ZeroPad(Deficit(padding, |bytes|), bytes) == ZeroPad(Deficit(padding + 1, |bytes|), bytes)
    ensures padding < Deficit(padding, |bytes|) + |bytes| ==>
      Deficit(padding + 1, |bytes|) == Deficit(padding, |bytes|)
  {
    ZeroPadCons(Deficit(padding, |bytes|), bytes);
  }

  /** The four-byte path of a codepoint. */
  function Path(cp: nat): (p: seq<nat>)
    requires Utf8.IsScalar(cp)
    ensures |p| == 4 && forall i :: 0 <= i < 4 ==> Utf8.IsByte(p[i])
  {
    Pad4(Utf8.Encode(cp))
  }

  /** Which bytes of a path are zero padding, by the length of the encoding. */
  lemma PathShape(cp: nat)
    requires Utf8.IsScalar(cp)
    ensures cp < 0x80 ==> Path(cp) == [0, 0, 0, cp]
    ensures 0x80 <= cp < 0x800 ==> Path(cp)[0] == 0 && Path(cp)[1] == 0 && Path(cp)[2] >= 0xC2
    ensures 0x800 <= cp < 0x10000 ==> Path(cp)[0] == 0 && Path(cp)[1] >= 0xE0
    ensures 0x10000 <= cp ==> Path(cp)[0] >= 0xF0
    ensures 0x80 <= cp ==> Path(cp)[2] > 0
  {
  }

  /** A four-byte path read as one number, first byte most significant. */
  function Key(p: seq<nat>): nat
    requires |p| == 4
  {
    p[0] * 16777216 + p[1] * 65536 + p[2] * 256 + p[3]
  }

  /** The six-bit groups of `x`, each moved into a byte of its own. */
  function Spread(x: nat, groups: nat): nat
    decreases groups
  {
    if groups <= 1 then x else 256 * Spread(x / 64, groups - 1) + x % 64
  }

  lemma {:induction false} SpreadMono(x: nat, y: nat, groups: nat)
    requires x < y
    ensures Spread(x, groups) < Spread(y, groups)
    decreases groups
  {
    if groups > 1 {
      var qx, qy := x / 64, y / 64;
      if qx < qy {
        SpreadMono(qx, qy, groups - 1);
      } else {
        assert qx == qy;
      }
    }
  }

  /** The path's number is a fixed base for its length plus the spread codepoint. */
  lemma PathKey(cp: nat)
    requires Utf8.IsScalar(cp)
    ensures cp < 0x80 ==> Key(Path(cp)) == cp
    ensures 0x80 <= cp < 0x800 ==> Key(Path(cp)) == 0xC080 + Spread(cp, 2)
    ensures 0x800 <= cp < 0x10000 ==> Key(Path(cp)) == 0xE08080 + Spread(cp, 3)
    ensures 0x10000 <= cp ==> Key(Path(cp)) == 0xF0808080 + Spread(cp, 4)
  {
    var q1 := cp / 64;
    var q2 := q1 / 64;
    assert Spread(cp, 2) == 256 * q1 + cp % 64;
    assert Spread(cp, 3) == 256 * (256 * q2 + q1 % 64) + cp % 64;
    assert Spread(cp, 4) == 256 * (256 * (256 * (q2 / 64) + q2 % 64) + q1 % 64) + cp % 64;
  }

  /** The spread values at the edges of the encoding lengths. */
  lemma SpreadBounds()
    ensures Spread(0x80, 2) == 0x200 && Spread(0x7FF, 2) == 0x1F3F
    ensures Spread(0x800, 3) == 0x2000 && Spread(0xFFFF, 3) == 0xF3F3F
    ensures Spread(0x10000, 4) == 0x100000
  {
    assert Spread(0x800 / 64, 2) == 0x20;
    assert Spread(0xFFFF / 64, 2) == 0xF3F;
    assert Spread(0x10000 / 64, 3) == 0x1000 by {
      assert Spread(0x10000 / 4096, 2) == 0x10;
    }
  }

  /** Greater codepoints have greater paths: UTF-8 keeps the order of codepoints. */
  lemma PathOrder(a: nat, c: nat)
    requires Utf8.IsScalar(a) && Utf8.IsScalar(c) && a < c
    ensures Key(Path(a)) < Key(Path(c))
  {
    if Length(a) == Length(c) {
      SameLengthOrder(a, c);
    } else {
      KeyBand(a);
      KeyBand(c);
    }
  }

  /** The number of bytes UTF-8 takes for a codepoint. */
  function Length(cp: nat): nat
  {
    if cp < 0x80 then 1 else if cp < 0x800 then 2 else if cp < 0x10000 then 3 else 4
  }

  /** Within one encoding length, the key grows with the codepoint. */
  lemma SameLengthOrder(a: nat, c: nat)
    requires Utf8.IsScalar(a) && Utf8.IsScalar(c) && a < c && Length(a) == Length(c)
    ensures Key(Path(a)) < Key(Path(c))
  {
    PathKey(a);
    PathKey(c);
    if Length(a) > 1 {
      SpreadMono(a, c, Length(a));
    }
  }

  /** The keys of each UTF-8 length lie in a band of their own, below the bands of longer encodings. */
  lemma KeyBand(cp: nat)
    requires Utf8.IsScalar(cp)
    ensures cp < 0x80 ==> Key(Path(cp)) < 0x80
    ensures 0x80 <= cp < 0x800 ==> 0xC280 <= Key(Path(cp)) <= 0xDFBF
    ensures 0x800 <= cp < 0x10000 ==> 0xE0A080 <= Key(Path(cp)) <= 0xEFBFBF
    ensures 0x10000 <= cp ==> 0xF0908080 <= Key(Path(cp))
  {
    PathKey(cp);
    SpreadBounds();
    if 0x80 <= cp < 0x800 {
      if cp > 0x80 { SpreadMono(0x80, cp, 2); }
      if cp < 0x7FF { SpreadMono(cp, 0x7FF, 2); }
    } else if 0x800 <= cp < 0x10000 {
      if cp > 0x800 { SpreadMono(0x800, cp, 3); }
      if cp < 0xFFFF { SpreadMono(cp, 0xFFFF, 3); }
    } else if 0x10000 < cp {
      SpreadMono(0x10000, cp, 4);
    }
  }

  /** Fourth bytes under a third byte. */
  type Thirds = Assoc<nat, seq<nat>>
  /** Third-byte tables under a second byte. */
  type Seconds = Assoc<nat, Thirds>
  /** `$utf8`: second-byte tables under a first byte. */
  type Trie = Assoc<nat, Seconds>

  /** The third-byte table under the first two bytes `a`, `b`. */
  function Group(t: Trie, a: nat, b: nat): Thirds
  {
    GetOr(GetOr(t, a, []), b, [])
  }

  /** The fourth bytes filed under the first three bytes `a`, `b`, `c`. */
  function Leaf(t: Trie, a: nat, b: nat, c: nat): seq<nat>
  {
    GetOr(Group(t, a, b), c, [])
  }

  /** The path `p` is in the trie. */
  predicate Contains(t: Trie, p: seq<nat>)
  {
    |p| == 4 && p[3] in Leaf(t, p[0], p[1], p[2])
  }

  /**
   * The walk down the trie with `$arr = &$arr[$byte]`, creating missing
   * levels, then `$arr[] = $byte` at the end: the fourth byte is appended
   * to the list under the first three.
   */
  function Insert(t: Trie, p: seq<nat>): Trie
    requires |p| == 4
  {
    var seconds := GetOr(t, p[0], []);
    var thirds := GetOr(seconds, p[1], []);
    var leaf := GetOr(thirds, p[2], []);
    Put(t, p[0], Put(seconds, p[1], Put(thirds, p[2], leaf + [p[3]])))
  }

  lemma GetOrPut<K, V>(a: Assoc<K, V>, k: K, v: V, k': K, d: V)
    ensures GetOr(Put(a, k, v), k', d) == if k' == k then v else GetOr(a, k', d)
  {
    if k' != k {
      PutOther(a, k, v, k');
    }
  }

  /** Insertion adds the fourth byte at the end of its own path and nowhere else. */
  lemma InsertLeaf(t: Trie, p: seq<nat>, a: nat, b: nat, c: nat)
    requires |p| == 4
    ensures Leaf(Insert(t, p), a, b, c) ==
      if a == p[0] && b == p[1] && c == p[2] then Leaf(t, a, b, c) + [p[3]] else Leaf(t, a, b, c)
  {
    var seconds := GetOr(t, p[0], []);
    var thirds := GetOr(seconds, p[1], []);
    var leaf := GetOr(thirds, p[2], []);
    var thirds' := Put(thirds, p[2], leaf + [p[3]]);
    var seconds' := Put(seconds, p[1], thirds');
    GetOrPut(t, p[0], seconds', a, []);
    GetOrPut(seconds, p[1], thirds', b, []);
    GetOrPut(thirds, p[2], leaf + [p[3]], c, []);
  }

  /** After inserting `p`, the trie holds exactly what it held and `p`. */
  lemma InsertContains(t: Trie, p: seq<nat>, q: seq<nat>)
    requires |p| == 4
    ensures Contains(Insert(t, p), q) <==> Contains(t, q) || q == p
  {
    if |q| == 4 {
      InsertLeaf(t, p, q[0], q[1], q[2]);
      LeafGrows(Leaf(Insert(t, p), q[0], q[1], q[2]), Leaf(t, q[0], q[1], q[2]), p, q);
    }
  }

  /** Membership in a leaf that may have grown by the inserted path's fourth byte. */
  lemma LeafGrows(after: seq<nat>, before: seq<nat>, p: seq<nat>, q: seq<nat>)
    requires |p| == 4 && |q| == 4
    requires after == if q[0] == p[0] && q[1] == p[1] && q[2] == p[2] then before + [p[3]] else before
    ensures q[3] in after <==> q[3] in before || q == p
  {
    if q[0] == p[0] && q[1] == p[1] && q[2] == p[2] && q[3] == p[3] {
      assert q == p;
    }
  }

  /** Keys strictly increase along the array. */
  predicate Increasing<V>(a: Assoc<nat, V>)
  {
    forall i, j :: 0 <= i < j < |a| ==> a[i].0 < a[j].0
  }

  predicate LeafFilled(leaf: seq<nat>)
  {
    |leaf| > 0 && forall x :: x in leaf ==> Utf8.IsByte(x)
  }

  predicate ThirdsFilled(th: Thirds)
  {
    |th| > 0 && DistinctKeys(th) && forall k :: 0 <= k < |th| ==> Utf8.IsByte(th[k].0) && LeafFilled(th[k].1)
  }

  predicate SecondsFilled(s: Seconds)
  {
    |s| > 0 && DistinctKeys(s) && forall j :: 0 <= j < |s| ==> Utf8.IsByte(s[j].0) && ThirdsFilled(s[j].1)
  }

  /**
   * What every trie the generator builds looks like: keys are distinct
   * bytes, no level is empty, and the leaves hold bytes.
   */
  predicate Filled(t: Trie)
  {
    DistinctKeys(t) && forall i :: 0 <= i < |t| ==> Utf8.IsByte(t[i].0) && SecondsFilled(t[i].1)
  }

  /** Within each group, third bytes come in increasing order. */
  predicate Ordered(t: Trie)
  {
    forall i, j :: 0 <= i < |t| && 0 <= j < |t[i].1| ==> Increasing(t[i].1[j].1)
  }

  /** Every path in `t` is at most `p`. */
  ghost predicate Bounded(t: Trie, p: seq<nat>)
    requires |p| == 4
  {
    forall q :: Contains(t, q) ==> Key(q) <= Key(p)
  }

  /** An entry of a distinct-keyed array after assignment: the new value under `k`, the old one elsewhere. */
  lemma PutAt<K, V>(a: Assoc<K, V>, k: K, v: V, i: nat)
    requires DistinctKeys(a) && i < |Put(a, k, v)|
    ensures Put(a, k, v)[i] == if Put(a, k, v)[i].0 == k then (k, v) else a[i]
  {
    var r := Put(a, k, v);
    PutDistinct(a, k, v);
    if r[i].0 == k {
      assert Get(r, k) == Some(r[i].1);
    }
  }

  /** A path located by its bytes: the entries it runs through. */
  lemma Locate(t: Trie, q: seq<nat>) returns (i: nat, j: nat, k: nat)
    requires Contains(t, q)
    ensures i < |t| && t[i].0 == q[0]
    ensures j < |t[i].1| && t[i].1[j].0 == q[1]
    ensures k < |t[i].1[j].1| && t[i].1[j].1[k] == (q[2], Leaf(t, q[0], q[1], q[2]))
  {
    var seconds := GetOr(t, q[0], []);
    var thirds := GetOr(seconds, q[1], []);
    var leaf := GetOr(thirds, q[2], []);
    assert HasKey(t, q[0]);
    i :| 0 <= i < |t| && t[i] == (q[0], seconds);
    assert HasKey(seconds, q[1]);
    j :| 0 <= j < |seconds| && seconds[j] == (q[1], thirds);
    assert HasKey(thirds, q[2]);
    k :| 0 <= k < |thirds| && thirds[k] == (q[2], leaf);
  }

  /** In a filled trie, every entry lies on a path the trie holds. */
  lemma OnPath(t: Trie, i: nat, j: nat, k: nat, x: nat)
    requires Filled(t) && i < |t| && j < |t[i].1| && k < |t[i].1[j].1| && x in t[i].1[j].1[k].1
    ensures Contains(t, [t[i].0, t[i].1[j].0, t[i].1[j].1[k].0, x])
  {
    var seconds := t[i].1;
    var thirds := seconds[j].1;
    assert Get(t, t[i].0) == Some(seconds);
    assert Get(seconds, seconds[j].0) == Some(thirds);
    assert Get(thirds, thirds[k].0) == Some(thirds[k].1);
  }

  /** Appending under a new largest key, or overwriting an existing key, keeps the keys increasing. */
  lemma PutIncreasing<V>(a: Assoc<nat, V>, c: nat, v: V)
    requires Increasing(a) && forall k :: 0 <= k < |a| ==> a[k].0 <= c
    ensures Increasing(Put(a, c, v))
  {
    if !HasKey(a, c) {
      assert Put(a, c, v) == a + [(c, v)];
    }
  }

  lemma PutThirdsFilled(thirds: Thirds, c: nat, leaf: seq<nat>)
    requires ThirdsFilled(thirds) || thirds == []
    requires Utf8.IsByte(c) && LeafFilled(leaf)
    ensures ThirdsFilled(Put(thirds, c, leaf))
  {
    var r := Put(thirds, c, leaf);
    PutDistinct(thirds, c, leaf);
    forall k | 0 <= k < |r|
      ensures Utf8.IsByte(r[k].0) && LeafFilled(r[k].1)
    {
      PutAt(thirds, c, leaf, k);
    }
  }

  lemma PutSecondsFilled(seconds: Seconds, b: nat, thirds: Thirds)
    requires SecondsFilled(seconds) || seconds == []
    requires Utf8.IsByte(b) && ThirdsFilled(thirds)
    ensures SecondsFilled(Put(seconds, b, thirds))
  {
    var r := Put(seconds, b, thirds);
    PutDistinct(seconds, b, thirds);
    forall j | 0 <= j < |r|
      ensures Utf8.IsByte(r[j].0) && ThirdsFilled(r[j].1)
    {
      PutAt(seconds, b, thirds, j);
    }
  }

  lemma PutTrieFilled(t: Trie, a: nat, seconds: Seconds)
    requires Filled(t) && Utf8.IsByte(a) && SecondsFilled(seconds)
    ensures Filled(Put(t, a, seconds))
  {
    var r := Put(t, a, seconds);
    PutDistinct(t, a, seconds);
    forall i | 0 <= i < |r|
      ensures Utf8.IsByte(r[i].0) && SecondsFilled(r[i].1)
    {
      PutAt(t, a, seconds, i);
    }
  }

  /** The seconds and thirds a filled trie hands out along a path are filled, or empty where the path is new. */
  lemma GroupFilled(t: Trie, a: nat, b: nat)
    requires Filled(t)
    ensures SecondsFilled(GetOr(t, a, [])) || GetOr(t, a, []) == []
    ensures ThirdsFilled(Group(t, a, b)) || Group(t, a, b) == []
    ensures forall x :: x in Leaf(t, a, b, 0) ==> Utf8.IsByte(x)
  {
    var seconds := GetOr(t, a, []);
    if HasKey(t, a) {
      var i :| 0 <= i < |t| && t[i] == (a, seconds);
      if HasKey(seconds, b) {
        var j :| 0 <= j < |seconds| && seconds[j] == (b, Group(t, a, b));
      }
    }
  }

  /** Inserting the path of a byte sequence keeps the trie filled. */
  lemma InsertFilled(t: Trie, p: seq<nat>)
    requires Filled(t) && |p| == 4 && forall i :: 0 <= i < 4 ==> Utf8.IsByte(p[i])
    ensures Filled(Insert(t, p))
  {
    var seconds := GetOr(t, p[0], []);
    var thirds := GetOr(seconds, p[1], []);
    var leaf := GetOr(thirds, p[2], []);
    GroupFilled(t, p[0], p[1]);
    assert forall x :: x in leaf ==> Utf8.IsByte(x) by {
      if HasKey(thirds, p[2]) {
        var k :| 0 <= k < |thirds| && thirds[k] == (p[2], leaf);
      }
    }
    PutThirdsFilled(thirds, p[2], leaf + [p[3]]);
    var thirds' := Put(thirds, p[2], leaf + [p[3]]);
    PutSecondsFilled(seconds, p[1], thirds');
    PutTrieFilled(t, p[0], Put(seconds, p[1], thirds'));
  }

  /** Under the group of `p`, every third byte is at most `p`'s. */
  lemma GroupBelow(t: Trie, p: seq<nat>, k: nat)
    requires Filled(t) && |p| == 4 && Utf8.IsByte(p[3]) && Bounded(t, p)
    requires k < |Group(t, p[0], p[1])|
    ensures Group(t, p[0], p[1])[k].0 <= p[2]
  {
    var thirds := Group(t, p[0], p[1]);
    GroupFilled(t, p[0], p[1]);
    var key := thirds[k].0;
    var f := thirds[k].1[0];
    assert Get(thirds, key) == Some(thirds[k].1);
    var q := [p[0], p[1], key, f];
    assert Leaf(t, p[0], p[1], key) == thirds[k].1;
    assert Contains(t, q);
  }

  /** Inserting a path no smaller than any path present keeps the groups ordered. */
  lemma InsertOrdered(t: Trie, p: seq<nat>)
    requires Filled(t) && Ordered(t) && |p| == 4 && Utf8.IsByte(p[3]) && Bounded(t, p)
    ensures Ordered(Insert(t, p))
  {
    var seconds := GetOr(t, p[0], []);
    var thirds := GetOr(seconds, p[1], []);
    var leaf := GetOr(thirds, p[2], []);
    var thirds' := Put(thirds, p[2], leaf + [p[3]]);
    var seconds' := Put(seconds, p[1], thirds');
    var t' := Put(t, p[0], seconds');
    GroupFilled(t, p[0], p[1]);
    assert Increasing(thirds) by {
      if HasKey(t, p[0]) {
        var i :| 0 <= i < |t| && t[i] == (p[0], seconds);
        if HasKey(seconds, p[1]) {
          var j :| 0 <= j < |seconds| && seconds[j] == (p[1], thirds);
        }
      }
    }
    forall k | 0 <= k < |thirds|
      ensures thirds[k].0 <= p[2]
    {
      GroupBelow(t, p, k);
    }
    PutIncreasing(thirds, p[2], leaf + [p[3]]);
    assert DistinctKeys(seconds) by {
      if HasKey(t, p[0]) {
        var i :| 0 <= i < |t| && t[i] == (p[0], seconds);
      }
    }
    forall i, j | 0 <= i < |t'| && 0 <= j < |t'[i].1|
      ensures Increasing(t'[i].1[j].1)
    {
      PutAt(t, p[0], seconds', i);
      if t'[i].0 == p[0] {
        PutAt(seconds, p[1], thirds', j);
        if seconds'[j].0 != p[1] {
          var i0 :| 0 <= i0 < |t| && t[i0] == (p[0], seconds);
        }
      }
    }
  }

  predicate Ascending(s: seq<nat>)
  {
    forall i, j :: 0 <= i < j < |s| ==> s[i] <= s[j]
  }

  /** `p` is the path of one of the codepoints. */
  ghost predicate PathOf(cps: seq<nat>, q: seq<nat>)
  {
    exists i :: 0 <= i < |cps| && Utf8.IsScalar(cps[i]) && q == Path(cps[i])
  }

  /**
   * The loop over the codepoints that encodes, pads and files each one: the
   * trie then holds the path of every codepoint and nothing else, it is
   * filled, and when the codepoints come in ascending order its groups are
   * ordered.
   */
  method BuildTrie(cps: seq<nat>) returns (utf8: Trie)
    requires forall i :: 0 <= i < |cps| ==> Utf8.IsScalar(cps[i])
    ensures forall q :: Contains(utf8, q) <==> PathOf(cps, q)
    ensures Filled(utf8)
    ensures Ascending(cps) ==> Ordered(utf8)
  {
    utf8 := [];
    for n := 0 to |cps|
      invariant forall q :: Contains(utf8, q) <==> PathOf(cps[..n], q)
      invariant Filled(utf8)
      invariant Ascending(cps[..n]) ==> Ordered(utf8)
    {
      var bytes := Utf8.Encode(cps[n]);
      bytes := PadBytes(bytes);
      assert bytes == Path(cps[n]);
      InsertStep(utf8, cps, n);
      utf8 := Insert(utf8, bytes);
      assert forall q :: Contains(utf8, q) <==> PathOf(cps[..n + 1], q);
    }
    assert cps[..|cps|] == cps;
  }

  /** One turn of the loop in `BuildTrie` keeps both of its invariants. */
  lemma InsertStep(t: Trie, cps: seq<nat>, n: nat)
    requires n < |cps| && forall i :: 0 <= i < |cps| ==> Utf8.IsScalar(cps[i])
    requires forall q :: Contains(t, q) <==> PathOf(cps[..n], q)
    requires Filled(t) && (Ascending(cps[..n]) ==> Ordered(t))
    ensures forall q :: Contains(Insert(t, Path(cps[n])), q) <==> PathOf(cps[..n + 1], q)
    ensures Filled(Insert(t, Path(cps[n])))
    ensures Ascending(cps[..n + 1]) ==> Ordered(Insert(t, Path(cps[n])))
  {
    InsertPaths(t, cps, n);
    InsertFilled(t, Path(cps[n]));
    if Ascending(cps[..n + 1]) {
      InsertShape(t, cps, n);
    }
  }

  lemma InsertShape(t: Trie, cps: seq<nat>, n: nat)
    requires n < |cps| && forall i :: 0 <= i < |cps| ==> Utf8.IsScalar(cps[i])
    requires forall q :: Contains(t, q) ==> PathOf(cps[..n], q)
    requires Filled(t) && Ascending(cps[..n + 1]) && (Ascending(cps[..n]) ==> Ordered(t))
    ensures Ordered(Insert(t, Path(cps[n])))
  {
    var p := Path(cps[n]);
    assert Ascending(cps[..n]) by {
      assert forall i :: 0 <= i < n ==> cps[..n][i] == cps[..n + 1][i];
    }
    PrefixBounded(t, cps, n);
    InsertOrdered(t, p);
  }

  /** With ascending codepoints, the paths filed so far are at most the next one. */
  lemma PrefixBounded(t: Trie, cps: seq<nat>, n: nat)
    requires n < |cps| && forall i :: 0 <= i < |cps| ==> Utf8.IsScalar(cps[i])
    requires forall q :: Contains(t, q) ==> PathOf(cps[..n], q)
    requires Ascending(cps[..n + 1])
    ensures Bounded(t, Path(cps[n]))
  {
    forall q | Contains(t, q)
      ensures Key(q) <= Key(Path(cps[n]))
    {
      var i :| 0 <= i < n && Utf8.IsScalar(cps[..n][i]) && q == Path(cps[..n][i]);
      assert cps[..n][i] == cps[i];
      assert cps[..n + 1][i] <= cps[..n + 1][n];
      PathAtMost(cps[i], cps[n]);
    }
  }

  lemma PathAtMost(a: nat, c: nat)
    requires Utf8.IsScalar(a) && Utf8.IsScalar(c) && a <= c
    ensures Key(Path(a)) <= Key(Path(c))
  {
    if a < c {
      PathOrder(a, c);
    }
  }

  lemma InsertPaths(t: Trie, cps: seq<nat>, n: nat)
    requires n < |cps| && forall i :: 0 <= i < |cps| ==> Utf8.IsScalar(cps[i])
    requires forall q :: Contains(t, q) <==> PathOf(cps[..n], q)
    ensures forall q :: Contains(Insert(t, Path(cps[n])), q) <==> PathOf(cps[..n + 1], q)
  {
    forall q
      ensures Contains(Insert(t, Path(cps[n])), q) <==> PathOf(cps[..n + 1], q)
    {
      InsertContains(t, Path(cps[n]), q);
      PathOfSnoc(cps, n, q);
    }
  }

  /** The paths of one more codepoint: those of the shorter prefix, and its own. */
  lemma PathOfSnoc(cps: seq<nat>, n: nat, q: seq<nat>)
    requires n < |cps| && forall i :: 0 <= i < |cps| ==> Utf8.IsScalar(cps[i])
    ensures PathOf(cps[..n + 1], q) <==> PathOf(cps[..n], q) || q == Path(cps[n])
  {
    var longer, shorter := cps[..n + 1], cps[..n];
    assert longer == shorter + [cps[n]];
    PathOfAppend(shorter, cps[n], q);
  }

  lemma PathOfAppend(shorter: seq<nat>, c: nat, q: seq<nat>)
    requires Utf8.IsScalar(c)
    ensures PathOf(shorter + [c], q) <==> PathOf(shorter, q) || q == Path(c)
  {
    var longer := shorter + [c];
    if PathOf(longer, q) {
      var i :| 0 <= i < |longer| && Utf8.IsScalar(longer[i]) && q == Path(longer[i]);
      if i < |shorter| {
        assert longer[i] == shorter[i];
      }
    }
    if PathOf(shorter, q) {
      var i :| 0 <= i < |shorter| && Utf8.IsScalar(shorter[i]) && q == Path(shorter[i]);
      assert longer[i] == shorter[i];
    }
    if q == Path(c) {
      assert longer[|shorter|] == c;
    }
  }
}
