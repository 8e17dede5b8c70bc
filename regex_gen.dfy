/**
 * The pattern generator (`bin/generate-unicode-regex.php`): it collects
 * every codepoint of the shortcode table, sorts them, files their padded
 * UTF-8 bytes in a trie, and writes one alternative per run of third bytes
 * in each first/second-byte group, with the fourth bytes of the run
 * widened to their smallest..largest range.
 */
module RegexGen {
  import opened PhpArray
  import opened PhpString
  import Hex
  import Utf8
  import Tables
  import opened RegexTrie
  import opened RegexText

  /** Every codepoint of every hexcode, in table order, repeats included. */
  function AllCodepoints(t: Tables.Table): (r: seq<nat>)
    ensures forall i, x :: 0 <= i < |t| && x in Tables.Codepoints(t[i].1) ==> x in r
    ensures forall x :: x in r ==> exists i :: 0 <= i < |t| && x in Tables.Codepoints(t[i].1)
    decreases |t|
  {
    if |t| == 0 then []
    else
      var n := |t| - 1;
      var r := AllCodepoints(t[..n]) + Tables.Codepoints(t[n].1);
      assert forall i :: 0 <= i < n ==> t[..n][i] == t[i];
      r
  }

  /** The two nested `foreach` loops that gather `hexdec` of every part of every hexcode. */
  method CollectCodepoints(t: Tables.Table) returns (codepoints: seq<nat>)
    ensures codepoints == AllCodepoints(t)
  {
    codepoints := [];
    for i := 0 to |t|
      invariant codepoints == AllCodepoints(t[..i])
    {
      var parts := Explode('-', t[i].1);
      ghost var before := codepoints;
      for j := 0 to |parts|
        invariant codepoints == before + Tables.Codepoints(t[i].1)[..j]
      {
        codepoints := codepoints + [Hex.HexValue(parts[j])];
      }
      assert Tables.Codepoints(t[i].1)[..|parts|] == Tables.Codepoints(t[i].1);
      assert t[..i + 1][..i] == t[..i];
    }
    assert t[..|t|] == t;
  }

  /** `x` placed into an ascending sequence. */
  function InsertSorted(x: nat, s: seq<nat>): (r: seq<nat>)
    requires Ascending(s)
    ensures Ascending(r) && multiset(r) == multiset(s) + multiset{x}
    decreases |s|
  {
    if |s| == 0 || x <= s[0] then
      [x] + s
    else
      var rest := InsertSorted(x, s[1..]);
      assert s == [s[0]] + s[1..];
      AscendingCons(s[0], rest, x, s[1..]);
      [s[0]] + rest
  }

  lemma AscendingCons(h: nat, rest: seq<nat>, x: nat, tail: seq<nat>)
    requires Ascending(rest) && h <= x && Ascending([h] + tail)
    requires multiset(rest) == multiset(tail) + multiset{x}
    ensures Ascending([h] + rest)
  {
    forall y | y in rest
      ensures h <= y
    {
      assert y in multiset(rest);
      if y != x {
        assert y in multiset(tail);
        var i :| 0 <= i < |tail| && tail[i] == y;
        assert ([h] + tail)[i + 1] == y && ([h] + tail)[0] == h;
        assert ([h] + tail)[0] <= ([h] + tail)[i + 1];
      }
    }
    forall i, j | 0 <= i < j < |[h] + rest|
      ensures ([h] + rest)[i] <= ([h] + rest)[j]
    {
      if i == 0 {
        assert ([h] + rest)[j] == rest[j - 1];
        assert rest[j - 1] in rest;
      }
    }
  }

  /** `sort($values)` on integers: ascending, the same values. */
  function Sort(s: seq<nat>): (r: seq<nat>)
    ensures Ascending(r) && multiset(r) == multiset(s)
    decreases |s|
  {
    if |s| == 0 then []
    else
      assert s == [s[0]] + s[1..];
      InsertSorted(s[0], Sort(s[1..]))
  }

  /** The smallest element. */
  function Least(s: seq<nat>): (m: nat)
    requires |s| > 0
    ensures m in s && forall x :: x in s ==> m <= x
  {
    if |s| == 1 then s[0]
    else
      var m := Least(s[1..]);
      assert forall x :: x in s ==> x == s[0] || x in s[1..];
      if s[0] <= m then s[0] else m
  }

  /** The largest element. */
  function Greatest(s: seq<nat>): (m: nat)
    requires |s| > 0
    ensures m in s && forall x :: x in s ==> x <= m
  {
    if |s| == 1 then s[0]
    else
      var m := Greatest(s[1..]);
      assert forall x :: x in s ==> x == s[0] || x in s[1..];
      if s[0] >= m then s[0] else m
  }

  /** After `sort`, `array_shift` gives the least element and `array_pop` the greatest. */
  lemma SortedEnds(s: seq<nat>)
    requires |s| > 0
    ensures |Sort(s)| == |s|
    ensures Sort(s)[0] == Least(s) && Sort(s)[|s| - 1] == Greatest(s)
  {
    PermutationEnds(Sort(s), s);
  }

  /** An ascending rearrangement of `s` starts with its least element and ends with its greatest. */
  lemma PermutationEnds(r: seq<nat>, s: seq<nat>)
    requires |s| > 0 && Ascending(r) && multiset(r) == multiset(s)
    ensures |r| == |s| && r[0] == Least(s) && r[|r| - 1] == Greatest(s)
  {
    assert |r| == |s| by {
      assert |multiset(r)| == |multiset(s)|;
    }
    var m, g := Least(s), Greatest(s);
    assert m in multiset(r) && g in multiset(r);
    assert r[0] in multiset(s) && r[|r| - 1] in multiset(s);
    assert m in r && g in r && r[0] in s && r[|r| - 1] in s;
    AscendingEnds(r, m);
    AscendingEnds(r, g);
    assert m <= r[0] && r[|r| - 1] <= g;
  }

  /** In an ascending sequence every member lies between the first and the last element. */
  lemma AscendingEnds(r: seq<nat>, x: nat)
    requires Ascending(r) && x in r
    ensures r[0] <= x <= r[|r| - 1]
  {
    var i :| 0 <= i < |r| && r[i] == x;
    assert r[0] <= r[i] <= r[|r| - 1];
  }

  lemma SameMembers(r: seq<nat>, s: seq<nat>)
    requires multiset(r) == multiset(s)
    ensures forall x :: x in r <==> x in s
  {
    forall x
      ensures x in r <==> x in s
    {
      assert x in r <==> x in multiset(r);
      assert x in s <==> x in multiset(s);
    }
  }

  /** The range matches the four bytes `p`. */
  predicate Covers(r: Range, p: seq<nat>)
    requires |p| == 4
  {
    r.b0 == p[0] && r.b1 == p[1] && r.lo3 <= p[2] <= r.hi3 && r.lo4 <= p[3] <= r.hi4
  }

  /** The loop variables `$first`, `$last` and `$little`, and the alternatives written so far. */
  datatype Run = Run(first: Option<nat>, last: nat, little: seq<nat>, done: seq<Range>)

  /** `!$first`: PHP reads both `null` and `0` as false. */
  predicate Falsy(first: Option<nat>)
  {
    first.None? || first.value == 0
  }

  /** The alternative for the current run: the fourth bytes from the least to the greatest. */
  function Close(b0: nat, b1: nat, run: Run): Range
  {
    var lo4 := if |run.little| > 0 then Least(run.little) else 0;
    var hi4 := if |run.little| > 0 then Greatest(run.little) else 0;
    Range(b0, b1, if run.first.Some? then run.first.value else 0, run.last, lo4, hi4)
  }

  /**
   * One third byte of a group: a run that has not started (or started at
   * byte 0) starts over here; a gap of more than one closes the run; any
   * other byte extends it.
   */
  function Step(b0: nat, b1: nat, run: Run, third: nat, fourths: seq<nat>): Run
  {
    if Falsy(run.first) then Run(Some(third), third, fourths, run.done)
    else if third - run.last > 1 then Run(Some(third), third, fourths, run.done + [Close(b0, b1, run)])
    else Run(run.first, third, run.little + fourths, run.done)
  }

  /** Every third byte has fourth bytes under it, and they are bytes. */
  predicate Leaves(thirds: Thirds)
  {
    forall m :: 0 <= m < |thirds| ==> LeafFilled(thirds[m].1)
  }

  /** The loop state after the first `|thirds|` third bytes of a group. */
  function Fold(b0: nat, b1: nat, thirds: Thirds): (run: Run)
    ensures |thirds| > 0 ==> run.first.Some? && (Leaves(thirds) ==> |run.little| > 0)
    ensures Leaves(thirds) ==> forall x :: x in run.little ==> x < 256
    ensures b0 < 256 && b1 < 256 && Leaves(thirds) ==>
      forall g :: g in run.done ==> g.b0 == b0 && g.b1 == b1 && ByteRange(g)
    decreases |thirds|
  {
    if |thirds| == 0 then Run(None, 0, [], [])
    else
      var n := |thirds| - 1;
      Step(b0, b1, Fold(b0, b1, thirds[..n]), thirds[n].0, thirds[n].1)
  }

  /** The alternatives of one group: those closed inside the loop, then the last run's. */
  function GroupRanges(b0: nat, b1: nat, thirds: Thirds): (rs: seq<Range>)
    ensures |rs| > 0 <==> |thirds| > 0
    ensures b0 < 256 && b1 < 256 && Leaves(thirds) ==>
      forall g :: g in rs ==> g.b0 == b0 && g.b1 == b1 && ByteRange(g)
  {
    if |thirds| == 0 then [] else
    var run := Fold(b0, b1, thirds);
    run.done + [Close(b0, b1, run)]
  }

  /** The entries a group's alternatives must cover: all but a leading byte 0 that another byte follows. */
  function Start(thirds: Thirds): nat
  {
    if |thirds| >= 2 && thirds[0].0 == 0 then 1 else 0
  }

  /** The fourth byte `f` under entry `m` is matched by a closed alternative or lies in the open run. */
  predicate Held(b0: nat, b1: nat, run: Run, third: nat, f: nat)
  {
    (exists r :: r in run.done && Covers(r, [b0, b1, third, f]))
    || (run.first.Some? && run.first.value <= third <= run.last && f in run.little)
  }

  /** What the loop keeps true after `k` third bytes. */
  ghost predicate FoldInv(b0: nat, b1: nat, thirds: Thirds, k: nat, run: Run)
    requires k <= |thirds|
  {
    (k == 0 ==> run == Run(None, 0, [], [])) &&
    (k > 0 ==> run.first.Some? && |run.little| > 0 && run.last == thirds[k - 1].0 && run.first.value <= run.last) &&
    (k > 0 && run.first.value == 0 ==> k == 1) &&
    (k == 1 ==> run.first.value == thirds[0].0) &&
    (forall r :: r in run.done ==> r.lo3 > 0) &&
    (forall m, f :: Start(thirds[..k]) <= m < k && f in thirds[m].1 ==> Held(b0, b1, run, thirds[m].0, f))
  }

  lemma {:induction false} FoldKeeps(b0: nat, b1: nat, thirds: Thirds, k: nat)
    requires k <= |thirds| && Increasing(thirds)
    requires forall m :: 0 <= m < |thirds| ==> |thirds[m].1| > 0
    ensures FoldInv(b0, b1, thirds, k, Fold(b0, b1, thirds[..k]))
    decreases k
  {
    if k > 0 {
      var n := k - 1;
      assert thirds[..k][..n] == thirds[..n];
      FoldKeeps(b0, b1, thirds, n);
      StepKeeps(b0, b1, thirds, n, Fold(b0, b1, thirds[..n]));
    }
  }

  lemma StepKeeps(b0: nat, b1: nat, thirds: Thirds, n: nat, run: Run)
    requires n < |thirds| && Increasing(thirds)
    requires forall m :: 0 <= m < |thirds| ==> |thirds[m].1| > 0
    requires FoldInv(b0, b1, thirds, n, run)
    ensures FoldInv(b0, b1, thirds, n + 1, Step(b0, b1, run, thirds[n].0, thirds[n].1))
  {
    var (third, fourths) := thirds[n];
    var run' := Step(b0, b1, run, third, fourths);
    assert Start(thirds[..n + 1]) == if n >= 1 && thirds[0].0 == 0 then 1 else 0;
    assert n > 0 ==> Start(thirds[..n]) == if n >= 2 && thirds[0].0 == 0 then 1 else 0;
    if n > 0 {
      assert thirds[n - 1].0 < third;
      assert run.last < third;
    }
    if Falsy(run.first) {
      forall m, f | Start(thirds[..n + 1]) <= m < n + 1 && f in thirds[m].1
        ensures Held(b0, b1, run', thirds[m].0, f)
      {
        assert m == n;
      }
    } else if third - run.last > 1 {
      var closed := Close(b0, b1, run);
      forall m, f | Start(thirds[..n + 1]) <= m < n + 1 && f in thirds[m].1
        ensures Held(b0, b1, run', thirds[m].0, f)
      {
        if m < n {
          if run.first.value <= thirds[m].0 <= run.last && f in run.little {
            assert Covers(closed, [b0, b1, thirds[m].0, f]);
            assert closed in run'.done;
          } else {
            var r :| r in run.done && Covers(r, [b0, b1, thirds[m].0, f]);
            assert r in run'.done;
          }
        }
      }
    } else {
      forall m, f | Start(thirds[..n + 1]) <= m < n + 1 && f in thirds[m].1
        ensures Held(b0, b1, run', thirds[m].0, f)
      {
        if m < n && !(exists r :: r in run.done && Covers(r, [b0, b1, thirds[m].0, f])) {
          assert f in run'.little;
        }
      }
    }
  }

  /**
   * Coverage of a group: with third bytes in increasing order, every fourth
   * byte under every third byte is matched by one of the group's
   * alternatives, except under a leading third byte 0 that another third
   * byte follows.
   */
  lemma GroupCovers(b0: nat, b1: nat, thirds: Thirds, m: nat, f: nat)
    requires Increasing(thirds) && forall k :: 0 <= k < |thirds| ==> |thirds[k].1| > 0
    requires Start(thirds) <= m < |thirds| && f in thirds[m].1
    ensures exists r :: r in GroupRanges(b0, b1, thirds) && Covers(r, [b0, b1, thirds[m].0, f])
  {
    FoldKeeps(b0, b1, thirds, |thirds|);
    assert thirds[..|thirds|] == thirds;
    var run := Fold(b0, b1, thirds);
    var last := Close(b0, b1, run);
    assert last in GroupRanges(b0, b1, thirds);
    if exists r :: r in run.done && Covers(r, [b0, b1, thirds[m].0, f]) {
      var r :| r in run.done && Covers(r, [b0, b1, thirds[m].0, f]);
      assert r in GroupRanges(b0, b1, thirds);
    } else {
      assert Covers(last, [b0, b1, thirds[m].0, f]);
    }
  }

  /** With more than one third byte, no alternative of the group starts at third byte 0. */
  lemma GroupSkipsZero(b0: nat, b1: nat, thirds: Thirds)
    requires Increasing(thirds) && forall k :: 0 <= k < |thirds| ==> |thirds[k].1| > 0
    requires |thirds| >= 2
    ensures forall r :: r in GroupRanges(b0, b1, thirds) ==> r.lo3 > 0
  {
    FoldKeeps(b0, b1, thirds, |thirds|);
    assert thirds[..|thirds|] == thirds;
  }

  /** The alternatives as text: each reads back as its range. */
  function Formats(rs: seq<Range>): (es: seq<string>)
    requires forall r :: r in rs ==> ByteRange(r)
    ensures |es| == |rs|
    ensures forall i :: 0 <= i < |rs| ==> Parse(es[i]) == Some(rs[i])
  {
    FormatsParse(rs);
    seq(|rs|, i requires 0 <= i < |rs| => Format(rs[i]))
  }

  lemma FormatsParse(rs: seq<Range>)
    requires forall r :: r in rs ==> ByteRange(r)
    ensures forall i :: 0 <= i < |rs| ==> Parse(Format(rs[i])) == Some(rs[i])
  {
    forall i | 0 <= i < |rs|
      ensures Parse(Format(rs[i])) == Some(rs[i])
    {
      ParseFormat(rs[i]);
    }
  }

  lemma FormatsAppend(a: seq<Range>, b: seq<Range>)
    requires forall r :: r in a ==> ByteRange(r)
    requires forall r :: r in b ==> ByteRange(r)
    ensures Formats(a + b) == Formats(a) + Formats(b)
  {
  }

  /** Every group under a first byte: a byte, with filled third-byte tables. */
  predicate GroupsFilled(seconds: Seconds)
  {
    forall j :: 0 <= j < |seconds| ==> Utf8.IsByte(seconds[j].0) && ThirdsFilled(seconds[j].1)
  }

  /** The lists one after the other. */
  function Concat(parts: seq<seq<Range>>): (rs: seq<Range>)
    ensures (forall j :: 0 <= j < |parts| ==> forall r :: r in parts[j] ==> ByteRange(r)) ==>
      forall r :: r in rs ==> ByteRange(r)
    decreases |parts|
  {
    if |parts| == 0 then []
    else
      var n := |parts| - 1;
      assert forall j :: 0 <= j < n ==> parts[..n][j] == parts[j];
      Concat(parts[..n]) + parts[n]
  }

  /** The list an element of a concatenation comes from. */
  lemma {:induction false} ConcatSource(parts: seq<seq<Range>>, r: Range) returns (j: nat)
    requires r in Concat(parts)
    ensures j < |parts| && r in parts[j]
    decreases |parts|
  {
    var n := |parts| - 1;
    if r in Concat(parts[..n]) {
      j := ConcatSource(parts[..n], r);
      assert parts[..n][j] == parts[j];
    } else {
      j := n;
    }
  }

  /** Every element of every list is in the concatenation. */
  lemma {:induction false} ConcatIncludes(parts: seq<seq<Range>>, j: nat, r: Range)
    requires j < |parts| && r in parts[j]
    ensures r in Concat(parts)
    decreases |parts|
  {
    var n := |parts| - 1;
    if j < n {
      assert parts[..n][j] == parts[j];
      ConcatIncludes(parts[..n], j, r);
    }
  }

  lemma ConcatSnoc(parts: seq<seq<Range>>, p: seq<Range>)
    ensures Concat(parts + [p]) == Concat(parts) + p
  {
    assert (parts + [p])[..|parts|] == parts;
  }

  /** The alternatives of every group under the first byte `b0`, in array order. */
  function SecondsRanges(b0: nat, seconds: Seconds): (rs: seq<Range>)
    ensures b0 < 256 && GroupsFilled(seconds) ==> forall r :: r in rs ==> ByteRange(r)
  {
    Concat(GroupLists(b0, seconds))
  }

  /** Every group of the trie: a byte under a byte, with a filled third-byte table. */
  predicate TrieGroupsFilled(t: Trie)
  {
    forall i :: 0 <= i < |t| ==> Utf8.IsByte(t[i].0) && GroupsFilled(t[i].1)
  }

  /** `$expressions` as ranges: every group of the trie, in array order. */
  function TrieRanges(t: Trie): (rs: seq<Range>)
    ensures TrieGroupsFilled(t) ==> forall r :: r in rs ==> ByteRange(r)
  {
    Concat(FirstLists(t))
  }

  lemma FilledGroups(t: Trie)
    requires Filled(t)
    ensures TrieGroupsFilled(t)
  {
  }

  /** The group an alternative of the trie comes from. */
  lemma TrieSource(t: Trie, r: Range) returns (i: nat, j: nat)
    requires r in TrieRanges(t)
    ensures i < |t| && j < |t[i].1| && r in GroupRanges(t[i].0, t[i].1[j].0, t[i].1[j].1)
  {
    i := ConcatSource(FirstLists(t), r);
    j := ConcatSource(GroupLists(t[i].0, t[i].1), r);
  }

  /** Every alternative of every group is in the trie's list. */
  lemma TrieIncludes(t: Trie, i: nat, j: nat, r: Range)
    requires i < |t| && j < |t[i].1| && r in GroupRanges(t[i].0, t[i].1[j].0, t[i].1[j].1)
    ensures r in TrieRanges(t)
  {
    ConcatIncludes(GroupLists(t[i].0, t[i].1), j, r);
    ConcatIncludes(FirstLists(t), i, r);
  }

  /** A UTF-8 sequence of two bytes: U+0080 to U+07FF. */
  predicate TwoByte(cp: nat)
  {
    0x80 <= cp < 0x800
  }

  /** Some range spans the padded bytes of `cp`: what the compression of the trie keeps. */
  ghost predicate Spanned(rs: seq<Range>, cp: nat)
    requires Utf8.IsScalar(cp)
  {
    exists r :: r in rs && Covers(r, Path(cp))
  }

  /** Some written alternative, read as PCRE reads it, matches the UTF-8 bytes of `cp`. */
  ghost predicate Matched(es: seq<string>, cp: nat)
    requires Utf8.IsScalar(cp)
  {
    exists e :: e in es && Accepts(e, Utf8.Encode(cp))
  }

  /**
   * What one written alternative matches: the bytes of a codepoint of two
   * or more bytes exactly when its range spans the padded bytes, and never
   * the single byte of an ASCII codepoint, since every alternative keeps at
   * least two atoms (a third byte 0 is written `\x0`, a NUL byte).
   */
  lemma FormatAccepts(r: Range, cp: nat)
    requires ByteRange(r) && Utf8.IsScalar(cp)
    ensures Accepts(Format(r), Utf8.Encode(cp)) <==> cp >= 0x80 && Covers(r, Path(cp))
  {
    FormatAtoms(r);
    var b := Utf8.Encode(cp);
    PathShape(cp);
    if cp < 0x80 {
      assert |Atoms(r)| != |b|;
    } else if cp < 0x800 {
      AtomsTwo(r, b, Path(cp));
    } else if cp < 0x10000 {
      AtomsThree(r, b, Path(cp));
    } else {
      AtomsFour(r, b, Path(cp));
    }
  }

  /** A two-byte codepoint: only the two atoms of a `00 00` range can match it. */
  lemma AtomsTwo(r: Range, b: seq<nat>, p: seq<nat>)
    requires |b| == 2 && |p| == 4 && p[..2] == [0, 0] && p[2..] == b && p[2] > 0
    ensures AtomsAccept(Atoms(r), b) <==> Covers(r, p)
  {
    if AtomsAccept(Atoms(r), b) {
      assert r.b0 == 0 && r.b1 == 0;
      assert Atoms(r)[0].0 <= b[0] <= Atoms(r)[0].1;
      assert Atoms(r)[1].0 <= b[1] <= Atoms(r)[1].1;
    }
  }

  /** A three-byte codepoint: only the three atoms of a `00` range can match it. */
  lemma AtomsThree(r: Range, b: seq<nat>, p: seq<nat>)
    requires |b| == 3 && |p| == 4 && p[0] == 0 && p[1..] == b && p[1] > 0
    ensures AtomsAccept(Atoms(r), b) <==> Covers(r, p)
  {
    if AtomsAccept(Atoms(r), b) {
      assert r.b0 == 0 && r.b1 != 0;
      assert Atoms(r)[0].0 <= b[0] <= Atoms(r)[0].1;
      assert Atoms(r)[1].0 <= b[1] <= Atoms(r)[1].1;
      assert Atoms(r)[2].0 <= b[2] <= Atoms(r)[2].1;
    }
  }

  /** A four-byte codepoint: only the four atoms of a range with a first byte can match it. */
  lemma AtomsFour(r: Range, b: seq<nat>, p: seq<nat>)
    requires |b| == 4 && p == b && p[0] > 0
    ensures AtomsAccept(Atoms(r), b) <==> Covers(r, p)
  {
    if AtomsAccept(Atoms(r), b) {
      assert r.b0 != 0;
      assert Atoms(r)[0].0 <= b[0] <= Atoms(r)[0].1;
      assert Atoms(r)[1].0 <= b[1] <= Atoms(r)[1].1;
      assert Atoms(r)[2].0 <= b[2] <= Atoms(r)[2].1;
      assert Atoms(r)[3].0 <= b[3] <= Atoms(r)[3].1;
    }
  }

  /** The written alternatives match the codepoints of two or more bytes that the ranges span, and nothing else. */
  lemma FormatsMatch(rs: seq<Range>, cp: nat)
    requires forall r :: r in rs ==> ByteRange(r)
    requires Utf8.IsScalar(cp)
    ensures Matched(Formats(rs), cp) <==> cp >= 0x80 && Spanned(rs, cp)
  {
    if Matched(Formats(rs), cp) {
      var e :| e in Formats(rs) && Accepts(e, Utf8.Encode(cp));
      var i := FormatsSource(rs, e);
      FormatAccepts(rs[i], cp);
    }
    if cp >= 0x80 && Spanned(rs, cp) {
      SpannedMatched(rs, cp);
    }
  }


  /** Every written alternative is the format of one of the ranges. */
  lemma FormatsSource(rs: seq<Range>, e: string) returns (i: nat)
    requires forall r :: r in rs ==> ByteRange(r)
    requires e in Formats(rs)
    ensures i < |rs| && rs[i] in rs && e == Format(rs[i])
  {
    var es := Formats(rs);
    var k :| 0 <= k < |es| && es[k] == e;
    i := k;
  }

  /** A spanned codepoint of two or more bytes is matched by its range's alternative. */
  lemma SpannedMatched(rs: seq<Range>, cp: nat)
    requires forall r :: r in rs ==> ByteRange(r)
    requires Utf8.IsScalar(cp) && cp >= 0x80 && Spanned(rs, cp)
    ensures Matched(Formats(rs), cp)
  {
    var es := Formats(rs);
    var r :| r in rs && Covers(r, Path(cp));
    var i :| 0 <= i < |rs| && rs[i] == r;
    FormatAccepts(r, cp);
    assert es[i] == Format(r) && es[i] in es;
  }


  /** The path of a member codepoint is in the trie, at known indices. */
  lemma LocateMember(t: Trie, cps: seq<nat>, cp: nat) returns (i: nat, j: nat, k: nat)
    requires forall q :: Contains(t, q) <==> PathOf(cps, q)
    requires Utf8.IsScalar(cp) && cp in cps
    ensures i < |t| && t[i].0 == Path(cp)[0]
    ensures j < |t[i].1| && t[i].1[j].0 == Path(cp)[1]
    ensures k < |t[i].1[j].1| && t[i].1[j].1[k].0 == Path(cp)[2] && Path(cp)[3] in t[i].1[j].1[k].1
  {
    var n :| 0 <= n < |cps| && cps[n] == cp;
    assert PathOf(cps, Path(cp));
    i, j, k := Locate(t, Path(cp));
  }

  /** A codepoint under the (0, 0) group at a non-zero third byte has two UTF-8 bytes. */
  lemma SecondEntryTwoByte(t: Trie, cps: seq<nat>, i: nat, j: nat, k: nat) returns (x: nat)
    requires forall n :: 0 <= n < |cps| ==> Utf8.IsScalar(cps[n])
    requires forall q :: Contains(t, q) <==> PathOf(cps, q)
    requires Filled(t) && i < |t| && j < |t[i].1| && k < |t[i].1[j].1|
    requires t[i].0 == 0 && t[i].1[j].0 == 0 && t[i].1[j].1[k].0 != 0
    ensures x in cps && TwoByte(x)
  {
    var leaf := t[i].1[j].1[k].1;
    assert leaf[0] in leaf;
    OnPath(t, i, j, k, leaf[0]);
    var q := [0, 0, t[i].1[j].1[k].0, leaf[0]];
    assert PathOf(cps, q);
    var n :| 0 <= n < |cps| && Utf8.IsScalar(cps[n]) && q == Path(cps[n]);
    x := cps[n];
    PathShape(x);
  }

  /** Under the conditions, the group holding `cp` is matched by one of its own alternatives. */
  lemma CoveredWhenKept(t: Trie, cps: seq<nat>, cp: nat)
    requires forall n :: 0 <= n < |cps| ==> Utf8.IsScalar(cps[n])
    requires forall q :: Contains(t, q) <==> PathOf(cps, q)
    requires Filled(t) && Ordered(t) && cp in cps
    requires cp >= 0x80 || forall x :: x in cps ==> !TwoByte(x)
    ensures Spanned(TrieRanges(t), cp)
  {
    var p := Path(cp);
    var i, j, k := KeptEntry(t, cps, cp);
    var thirds := t[i].1[j].1;
    GroupCovers(t[i].0, t[i].1[j].0, thirds, k, p[3]);
    var r :| r in GroupRanges(t[i].0, t[i].1[j].0, thirds) && Covers(r, [t[i].0, t[i].1[j].0, thirds[k].0, p[3]]);
    assert [t[i].0, t[i].1[j].0, thirds[k].0, p[3]] == p;
    TrieIncludes(t, i, j, r);
  }

  /** Under the same conditions, the entry holding `cp` is one its group's alternatives must cover. */
  lemma KeptEntry(t: Trie, cps: seq<nat>, cp: nat) returns (i: nat, j: nat, k: nat)
    requires forall n :: 0 <= n < |cps| ==> Utf8.IsScalar(cps[n])
    requires forall q :: Contains(t, q) <==> PathOf(cps, q)
    requires Filled(t) && Ordered(t) && cp in cps
    requires cp >= 0x80 || forall x :: x in cps ==> !TwoByte(x)
    ensures Utf8.IsScalar(cp)
    ensures i < |t| && t[i].0 == Path(cp)[0]
    ensures j < |t[i].1| && t[i].1[j].0 == Path(cp)[1]
    ensures Increasing(t[i].1[j].1) && forall m :: 0 <= m < |t[i].1[j].1| ==> |t[i].1[j].1[m].1| > 0
    ensures Start(t[i].1[j].1) <= k < |t[i].1[j].1|
    ensures t[i].1[j].1[k].0 == Path(cp)[2] && Path(cp)[3] in t[i].1[j].1[k].1
  {
    var n :| 0 <= n < |cps| && cps[n] == cp;
    PathShape(cp);
    i, j, k := LocateMember(t, cps, cp);
    var thirds := t[i].1[j].1;
    assert Increasing(thirds);
    if Start(thirds) == 1 && k == 0 {
      assert Path(cp)[2] == 0;
      assert thirds[0].0 < thirds[1].0;
      var x := SecondEntryTwoByte(t, cps, i, j, 1);
    }
  }

  /** A one-byte codepoint is matched by no alternative once a two-byte codepoint shares its group. */
  lemma DroppedWhenShared(t: Trie, cps: seq<nat>, cp: nat, x: nat)
    requires forall n :: 0 <= n < |cps| ==> Utf8.IsScalar(cps[n])
    requires forall q :: Contains(t, q) <==> PathOf(cps, q)
    requires Filled(t) && Ordered(t) && cp in cps && cp < 0x80
    requires x in cps && TwoByte(x)
    ensures !Spanned(TrieRanges(t), cp)
  {
    PathShape(cp);
    var i, j, k := LocateMember(t, cps, cp);
    assert Utf8.IsScalar(x);
    PathShape(x);
    var i', j', k' := LocateMember(t, cps, x);
    assert i' == i && j' == j by {
      assert t[i'].0 == t[i].0;
      assert t[i'].1 == t[i].1;
    }
    var thirds := t[i].1[j].1;
    assert k' != k;
    GroupSkipsZero(0, 0, thirds);
    if Spanned(TrieRanges(t), cp) {
      var r :| r in TrieRanges(t) && Covers(r, Path(cp));
      SourceGroup(t, r, i, j);
      assert false;
    }
  }

  /** An alternative of the trie whose first two bytes are those of a group comes from that group. */
  lemma SourceGroup(t: Trie, r: Range, i: nat, j: nat)
    requires Filled(t) && i < |t| && j < |t[i].1|
    requires r in TrieRanges(t) && r.b0 == t[i].0 && r.b1 == t[i].1[j].0
    ensures r in GroupRanges(t[i].0, t[i].1[j].0, t[i].1[j].1)
  {
    var i2, j2 := TrieSource(t, r);
    var thirds := t[i2].1[j2].1;
    assert Leaves(thirds) && Utf8.IsByte(t[i2].0) && Utf8.IsByte(t[i2].1[j2].0);
    assert r.b0 == t[i2].0 && r.b1 == t[i2].1[j2].0;
    assert i2 == i;
    assert j2 == j;
  }

  /**
   * Which codepoints of the table the ranges span: every codepoint of two
   * or more UTF-8 bytes, and the one-byte codepoints only when no codepoint
   * of two bytes is present (the `!$first` test treats a run that starts at
   * third byte 0 as no run at all).
   */
  lemma SpanCoverage(t: Trie, cps: seq<nat>, cp: nat)
    requires forall n :: 0 <= n < |cps| ==> Utf8.IsScalar(cps[n])
    requires forall q :: Contains(t, q) <==> PathOf(cps, q)
    requires Filled(t) && Ordered(t) && cp in cps
    ensures Utf8.IsScalar(cp)
    ensures Spanned(TrieRanges(t), cp) <==> cp >= 0x80 || forall x :: x in cps ==> !TwoByte(x)
  {
    if cp >= 0x80 || forall x :: x in cps ==> !TwoByte(x) {
      CoveredWhenKept(t, cps, cp);
    } else {
      var x :| x in cps && TwoByte(x);
      DroppedWhenShared(t, cps, cp, x);
    }
  }

  /**
   * Which codepoints of the table the written pattern matches: exactly
   * those of two or more UTF-8 bytes. A one-byte codepoint is either not
   * spanned at all, or spanned by a range whose third byte 0 is written
   * `\x0`, which PCRE reads as a NUL byte that the codepoint lacks.
   */
  lemma Coverage(t: Trie, cps: seq<nat>, cp: nat)
    requires forall n :: 0 <= n < |cps| ==> Utf8.IsScalar(cps[n])
    requires forall q :: Contains(t, q) <==> PathOf(cps, q)
    requires Filled(t) && Ordered(t) && cp in cps
    ensures Utf8.IsScalar(cp) && TrieGroupsFilled(t)
    ensures Matched(Formats(TrieRanges(t)), cp) <==> cp >= 0x80
  {
    FilledGroups(t);
    SpanCoverage(t, cps, cp);
    FormatsMatch(TrieRanges(t), cp);
  }

  /**
   * The alternative the generator writes for a table whose only codepoint
   * is `#` (U+0023): the third byte 0 comes out as `\x0`, so the
   * alternative matches a NUL byte followed by `#`, and not `#` itself.
   */
  lemma AsciiAlternative()
    ensures Format(Range(0, 0, 0, 0, 0x23, 0x23)) == "\\x0\\x23"
    ensures Accepts("\\x0\\x23", [0, 0x23])
    ensures !Accepts("\\x0\\x23", Utf8.Encode(0x23))
  {
    var r := Range(0, 0, 0, 0, 0x23, 0x23);
    AsciiText(r);
    FormatAtoms(r);
    AsciiAccepts(Format(r), Atoms(r));
  }

  lemma AsciiText(r: Range)
    requires r == Range(0, 0, 0, 0, 0x23, 0x23)
    ensures Format(r) == "\\x0\\x23"
  {
    StripShape(r);
    assert Hex.HexDigits(0) == "0";
    assert Hex.Hex2(0x23) == "23";
  }

  lemma AsciiAccepts(e: string, a: seq<(nat, nat)>)
    requires ReadAtoms(e) == Some(a) && a == [(0, 0), (0x23, 0x23)]
    ensures Accepts(e, [0, 0x23]) && !Accepts(e, Utf8.Encode(0x23))
  {
    assert Utf8.Encode(0x23) == [0x23];
  }



  /**
   * One alternative written out: `sort($little)`, `array_shift` and
   * `array_pop` for the fourth-byte ends (the shifted one again when
   * nothing is left to pop), then `sprintf` and the removal of the leading
   * `\x00` bytes.
   */
  method Emit(b0: nat, b1: nat, first: nat, last: nat, little: seq<nat>) returns (expression: string)
    requires b0 < 256 && b1 < 256 && |little| > 0 && forall x :: x in little ==> x < 256
    ensures expression == Format(Close(b0, b1, Run(Some(first), last, little, [])))
  {
    var sorted := Sort(little);
    SortedEnds(little);
    var littleFirst := sorted[0];
    var rest := sorted[1..];
    var littleLast: Option<nat> := None;
    if |rest| > 0 {
      littleLast := Some(rest[|rest| - 1]);
    }
    if littleLast.None? {
      littleLast := Some(littleFirst);
    }
    var third := Atom(first == last, Hex.HexDigits(first), Hex.HexDigits(last));
    var fourth := Atom(littleFirst == littleLast.value, Hex.Hex2(littleFirst), Hex.Hex2(littleLast.value));
    expression := StripNul("\\x" + Hex.Hex2(b0) + "\\x" + Hex.Hex2(b1) + third + fourth);
  }

  /** The third bytes read so far, with their fourth bytes, are filled. */
  lemma FoldNext(b0: nat, b1: nat, thirds: Thirds, k: nat)
    requires k < |thirds| && Leaves(thirds)
    ensures Leaves(thirds[..k]) && Leaves(thirds[..k + 1])
    ensures Fold(b0, b1, thirds[..k + 1]) == Step(b0, b1, Fold(b0, b1, thirds[..k]), thirds[k].0, thirds[k].1)
  {
    var longer, shorter := thirds[..k + 1], thirds[..k];
    assert longer[..k] == shorter;
    forall m | 0 <= m < |longer|
      ensures LeafFilled(longer[m].1)
    {
      assert longer[m] == thirds[m];
    }
    forall m | 0 <= m < |shorter|
      ensures LeafFilled(shorter[m].1)
    {
      assert shorter[m] == thirds[m];
    }
  }

  /** Closing a run appends its alternative's text. */
  lemma FormatsClose(b0: nat, b1: nat, run: Run)
    requires b0 < 256 && b1 < 256 && run.first.Some? && |run.little| > 0
    requires forall x :: x in run.little ==> x < 256
    requires forall g :: g in run.done ==> ByteRange(g)
    ensures ByteRange(Close(b0, b1, run))
    ensures Formats(run.done + [Close(b0, b1, run)]) == Formats(run.done) + [Format(Close(b0, b1, Run(run.first, run.last, run.little, [])))]
  {
    var c := Close(b0, b1, run);
    assert ByteRange(c);
    FormatsAppend(run.done, [c]);
  }

  /** The loop variables hold the run, and the text written so far is that of its closed alternatives. */
  ghost predicate Mirrors(run: Run, first: Option<nat>, last: nat, little: seq<nat>, exprs: seq<string>)
  {
    (forall g :: g in run.done ==> ByteRange(g))
    && first == run.first && last == run.last && little == run.little
    && exprs == Formats(run.done)
  }

  /** One pass of the loop over the third bytes: the new loop variables hold `Step` of the run. */
  method Advance(b0: nat, b1: nat, ghost run: Run, first: Option<nat>, last: nat, little: seq<nat>, exprs: seq<string>,
                 thirdByte: nat, fourthBytes: seq<nat>)
    returns (first': Option<nat>, last': nat, little': seq<nat>, exprs': seq<string>)
    requires b0 < 256 && b1 < 256 && LeafFilled(fourthBytes)
    requires Mirrors(run, first, last, little, exprs)
    requires run.first.Some? ==> |run.little| > 0
    requires forall x :: x in run.little ==> x < 256
    ensures Mirrors(Step(b0, b1, run, thirdByte, fourthBytes), first', last', little', exprs')
  {
    if Falsy(first) {
      return Some(thirdByte), thirdByte, fourthBytes, exprs;
    }
    first', little', exprs' := first, little, exprs;
    if thirdByte - last > 1 {
      FormatsClose(b0, b1, run);
      var expression := Emit(b0, b1, first.value, last, little);
      exprs' := exprs + [expression];
      first' := Some(thirdByte);
      little' := [];
    }
    last' := thirdByte;
    little' := AppendAll(little', fourthBytes);
  }

  /** `$little[] = $fourth` for each fourth byte, in order. */
  method AppendAll(little: seq<nat>, fourthBytes: seq<nat>) returns (little': seq<nat>)
    ensures little' == little + fourthBytes
  {
    little' := little;
    for f := 0 to |fourthBytes|
      invariant little' == little + fourthBytes[..f]
    {
      little' := little' + [fourthBytes[f]];
    }
    assert fourthBytes[..|fourthBytes|] == fourthBytes;
  }

  /**
   * The loop over the third bytes of one group: the loop variables follow
   * `Fold`, and the text written is that of the group's alternatives.
   */
  method CompressGroup(b0: nat, b1: nat, thirds: Thirds) returns (exprs: seq<string>)
    requires b0 < 256 && b1 < 256 && ThirdsFilled(thirds)
    ensures exprs == Formats(GroupRanges(b0, b1, thirds))
  {
    var first: Option<nat> := None;
    var last: nat := 0;
    var little: seq<nat> := [];
    exprs := [];
    ghost var run := Fold(b0, b1, thirds[..0]);
    for k := 0 to |thirds|
      invariant Leaves(thirds[..k]) && run == Fold(b0, b1, thirds[..k])
      invariant Mirrors(run, first, last, little, exprs)
    {
      FoldNext(b0, b1, thirds, k);
      first, last, little, exprs := Advance(b0, b1, run, first, last, little, exprs, thirds[k].0, thirds[k].1);
      run := Step(b0, b1, run, thirds[k].0, thirds[k].1);
    }
    assert thirds[..|thirds|] == thirds;
    FormatsClose(b0, b1, run);
    var expression := Emit(b0, b1, first.value, last, little);
    exprs := exprs + [expression];
  }

  /** The loop over the second bytes under one first byte. */
  method CompressSeconds(b0: nat, seconds: Seconds) returns (exprs: seq<string>)
    requires b0 < 256 && GroupsFilled(seconds)
    ensures exprs == Formats(SecondsRanges(b0, seconds))
  {
    exprs := [];
    for j := 0 to |seconds|
      invariant exprs == Formats(SecondsRanges(b0, seconds[..j]))
    {
      var group := CompressGroup(b0, seconds[j].0, seconds[j].1);
      SecondsSnoc(b0, seconds, j);
      FormatsAppend(SecondsRanges(b0, seconds[..j]), GroupRanges(b0, seconds[j].0, seconds[j].1));
      exprs := exprs + group;
    }
    assert seconds[..|seconds|] == seconds;
  }

  /** The two outer loops: every group of every first byte, in array order. */
  method BuildExpressions(utf8: Trie) returns (expressions: seq<string>)
    requires TrieGroupsFilled(utf8)
    ensures expressions == Formats(TrieRanges(utf8))
  {
    expressions := [];
    for i := 0 to |utf8|
      invariant TrieGroupsFilled(utf8[..i])
      invariant expressions == Formats(TrieRanges(utf8[..i]))
    {
      var more := CompressSeconds(utf8[i].0, utf8[i].1);
      TrieSnoc(utf8, i);
      FormatsAppend(TrieRanges(utf8[..i]), SecondsRanges(utf8[i].0, utf8[i].1));
      expressions := expressions + more;
    }
    assert utf8[..|utf8|] == utf8;
  }

  /** The lists `SecondsRanges` concatenates: one per group. */
  function GroupLists(b0: nat, seconds: Seconds): (parts: seq<seq<Range>>)
    ensures |parts| == |seconds|
  {
    seq(|seconds|, j requires 0 <= j < |seconds| => GroupRanges(b0, seconds[j].0, seconds[j].1))
  }

  lemma SecondsSnoc(b0: nat, seconds: Seconds, j: nat)
    requires j < |seconds|
    ensures SecondsRanges(b0, seconds[..j + 1]) == SecondsRanges(b0, seconds[..j]) + GroupRanges(b0, seconds[j].0, seconds[j].1)
  {
    var parts := GroupLists(b0, seconds[..j]);
    var g := GroupRanges(b0, seconds[j].0, seconds[j].1);
    var longer := GroupLists(b0, seconds[..j + 1]);
    forall k | 0 <= k < j + 1
      ensures longer[k] == (parts + [g])[k]
    {
      if k < j {
        assert seconds[..j + 1][k] == seconds[..j][k];
      }
    }
    assert longer == parts + [g];
    ConcatSnoc(parts, g);
  }

  /** The lists `TrieRanges` concatenates: one per first byte. */
  function FirstLists(t: Trie): (parts: seq<seq<Range>>)
    ensures |parts| == |t|
  {
    seq(|t|, i requires 0 <= i < |t| => SecondsRanges(t[i].0, t[i].1))
  }

  lemma TrieSnoc(t: Trie, i: nat)
    requires i < |t|
    ensures TrieRanges(t[..i + 1]) == TrieRanges(t[..i]) + SecondsRanges(t[i].0, t[i].1)
  {
    var parts := FirstLists(t[..i]);
    var g := SecondsRanges(t[i].0, t[i].1);
    var longer := FirstLists(t[..i + 1]);
    assert |longer| == |parts + [g]|;
    forall k | 0 <= k < i + 1
      ensures longer[k] == (parts + [g])[k]
    {
      var e := t[..i + 1][k];
      assert longer[k] == SecondsRanges(e.0, e.1);
      if k < i {
        assert e == t[..i][k];
        assert parts[k] == SecondsRanges(e.0, e.1);
      } else {
        assert e == t[i];
      }
    }
    assert longer == parts + [g];
    ConcatSnoc(parts, g);
  }

  /** `sprintf('/(%s)/x', implode(PHP_EOL . '|', $expressions))`: one alternative per line. */
  function Pattern(expressions: seq<string>): string
  {
    "/(" + Join("\n|", expressions) + ")/x"
  }

  /** The generated file: a PHP script returning the pattern as a single-quoted string. */
  function FileText(pattern: string): string
  {
    "<?php\nreturn '" + pattern + "';"
  }

  /**
   * The whole generator: collect and sort the codepoints, file their padded
   * UTF-8 bytes in the trie, compress each group, and write the file. The
   * ranges behind the alternatives are returned alongside: they span the
   * codepoints `SpanCoverage` names, and the written pattern matches those
   * `Coverage` names.
   */
  method Generate(shortcodes: Tables.Table) returns (file: string, ghost ranges: seq<Range>)
    requires forall x :: x in AllCodepoints(shortcodes) ==> Utf8.IsScalar(x)
    ensures forall r :: r in ranges ==> ByteRange(r)
    ensures file == FileText(Pattern(Formats(ranges)))
    ensures forall cp :: cp in AllCodepoints(shortcodes) ==>
      (Spanned(ranges, cp) <==> cp >= 0x80 || forall x :: x in AllCodepoints(shortcodes) ==> !TwoByte(x))
    ensures forall cp :: cp in AllCodepoints(shortcodes) ==> (Matched(Formats(ranges), cp) <==> cp >= 0x80)
  {
    var codepoints := CollectCodepoints(shortcodes);
    var sorted := Sort(codepoints);
    SameMembers(sorted, codepoints);
    var utf8 := BuildTrie(sorted);
    FilledGroups(utf8);
    var expressions := BuildExpressions(utf8);
    ranges := TrieRanges(utf8);
    forall cp | cp in codepoints
      ensures Spanned(ranges, cp) <==> cp >= 0x80 || forall x :: x in codepoints ==> !TwoByte(x)
      ensures Matched(Formats(ranges), cp) <==> cp >= 0x80
    {
      SpanCoverage(utf8, sorted, cp);
      Coverage(utf8, sorted, cp);
    }
    file := FileText(Pattern(expressions));
  }
}
