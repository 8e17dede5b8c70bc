/**
 * The shortcode table and the lookup arrays the engine derives from it:
 * the exclusion filter (`getShortcodes`), the reverse index
 * (`array_flip`), and the three replacement arrays built by
 * `getShortcodeCodepoints`, `getEntityCodepoints` and
 * `getShortcodeEntities`.
 */
module Tables {
  import opened PhpArray
  import opened PhpString
  import Hex
  import Entities
  import Matcher

  /** A shortcode table: `name => 'HEX-HEX-...'`, in file order. */
  type Table = Assoc<string, string>

  /** The codepoints an entry's hexcode names. */
  function Codepoints(hexcode: string): seq<nat>
  {
    Hex.ParseKey(hexcode)
  }

  /** Every hexcode of the table is spelled the way `sprintf('%X')` spells its codepoints. */
  predicate Canonical(t: Table)
  {
    forall i :: 0 <= i < |t| ==> t[i].1 == Hex.HexKey(Codepoints(t[i].1))
  }

  /** Entries with longer hexcodes come first, as the generator orders them. */
  predicate LongestFirst(t: Table)
  {
    forall i, j :: 0 <= i < j < |t| ==> |t[i].1| >= |t[j].1|
  }

  /** `array_filter($t, fn($code) => !in_array($code, $excluded), ARRAY_FILTER_USE_KEY)` */
  function Filter(t: Table, excluded: seq<string>): Table
    decreases |t|
  {
    if |t| == 0 then []
    else (if t[0].0 in excluded then [] else [t[0]]) + Filter(t[1..], excluded)
  }

  /** The filter keeps exactly the entries whose name is not excluded. */
  lemma {:induction false} FilterKeeps(t: Table, excluded: seq<string>)
    ensures forall e :: e in Filter(t, excluded) <==> e in t && e.0 !in excluded
    decreases |t|
  {
    if |t| > 0 {
      FilterKeeps(t[1..], excluded);
      assert t == [t[0]] + t[1..];
    }
  }

  /** The filter keeps the order: filtering a concatenation filters each half. */
  lemma {:induction false} FilterAppend(a: Table, b: Table, excluded: seq<string>)
    ensures Filter(a + b, excluded) == Filter(a, excluded) + Filter(b, excluded)
    decreases |a|
  {
    if |a| == 0 {
      assert a + b == b;
    } else {
      assert (a + b)[1..] == a[1..] + b;
      FilterAppend(a[1..], b, excluded);
    }
  }

  /** Excluding nothing the table names leaves the table as it is. */
  lemma {:induction false} FilterNothing(t: Table, excluded: seq<string>)
    requires forall i :: 0 <= i < |t| ==> t[i].0 !in excluded
    ensures Filter(t, excluded) == t
    decreases |t|
  {
    if |t| > 0 {
      FilterNothing(t[1..], excluded);
    }
  }

  /** `array_flip($t)`: hexcode => name, built by assignment in table order. */
  function Flip(t: Table): Matcher.Index
    decreases |t|
  {
    if |t| == 0 then [] else Put(Flip(t[..|t| - 1]), t[|t| - 1].1, t[|t| - 1].0)
  }

  /** The name listed last for hexcode `h`, found by searching from the end of the table. */
  function LastNameFor(t: Table, h: string): Option<string>
    decreases |t|
  {
    if |t| == 0 then None
    else if t[|t| - 1].1 == h then Some(t[|t| - 1].0)
    else LastNameFor(t[..|t| - 1], h)
  }

  /** The search finds nothing exactly when no entry has the hexcode, and otherwise the last entry that does. */
  lemma {:induction false} LastNameForFinds(t: Table, h: string)
    ensures LastNameFor(t, h).None? <==> forall i :: 0 <= i < |t| ==> t[i].1 != h
    ensures LastNameFor(t, h).Some? ==>
      exists i :: 0 <= i < |t| && t[i] == (LastNameFor(t, h).value, h) && forall j :: i < j < |t| ==> t[j].1 != h
    decreases |t|
  {
    if |t| > 0 && t[|t| - 1].1 != h {
      var init := t[..|t| - 1];
      LastNameForFinds(init, h);
      assert forall i :: 0 <= i < |init| ==> init[i] == t[i];
      var r := LastNameFor(init, h);
      if r.Some? {
        var i :| 0 <= i < |init| && init[i] == (r.value, h) && forall j :: i < j < |init| ==> init[j].1 != h;
        assert t[i] == (r.value, h);
      }
    }
  }

  /** In the reverse index, a hexcode listed under several names belongs to the last of them. */
  lemma {:induction false} FlipLastWins(t: Table, h: string)
    ensures Get(Flip(t), h) == LastNameFor(t, h)
    decreases |t|
  {
    if |t| > 0 {
      var init := t[..|t| - 1];
      FlipLastWins(init, h);
      if t[|t| - 1].1 != h {
        PutOther(Flip(init), t[|t| - 1].1, t[|t| - 1].0, h);
      }
    }
  }

  /** `'&#x' . $part . ';'` for each part, concatenated: the entity run a hexcode is keyed by. */
  function EntityText(parts: seq<string>): Text
    decreases |parts|
  {
    if |parts| == 0 then []
    else EntityText(parts[..|parts| - 1]) + Lit("&#x") + Lit(parts[|parts| - 1]) + Lit(";")
  }

  function EntityKey(hexcode: string): Text
  {
    EntityText(Explode('-', hexcode))
  }

  /** The reverse index holds each hexcode once, and each of its pairs is an entry of the table, flipped. */
  lemma {:induction false} FlipPairs(t: Table)
    ensures DistinctKeys(Flip(t))
    ensures forall j :: 0 <= j < |Flip(t)| ==> (Flip(t)[j].1, Flip(t)[j].0) in t
    decreases |t|
  {
    if |t| > 0 {
      var init, last := t[..|t| - 1], t[|t| - 1];
      FlipPairs(init);
      var m := Flip(init);
      PutDistinct(m, last.1, last.0);
      var r := Flip(t);
      forall j | 0 <= j < |r| ensures (r[j].1, r[j].0) in t {
        if j < |m| && m[j].0 != last.1 {
          assert r[j] == m[j];
          assert (m[j].1, m[j].0) in init;
        } else {
          assert r[j].0 == last.1;
          assert Get(r, last.1) == Some(last.0);
        }
      }
    }
  }

  /** `'&#x'` opens every entity text. */
  lemma {:induction false} EntityTextStart(parts: seq<string>)
    requires |parts| > 0
    ensures |EntityText(parts)| > 0 && EntityText(parts)[0] == Entities.AMP
    decreases |parts|
  {
    if |parts| > 1 {
      EntityTextStart(parts[..|parts| - 1]);
    } else {
      assert parts[..0] == [];
    }
  }

  /** `:name:` => the codepoints (`getShortcodeCodepoints`). */
  function ShortcodeCodepointsOf(t: Table): Assoc<Text, Text>
    decreases |t|
  {
    if |t| == 0 then []
    else Put(ShortcodeCodepointsOf(t[..|t| - 1]), Matcher.Colon(t[|t| - 1].0), Codepoints(t[|t| - 1].1))
  }

  /** entity run => the codepoints (`getEntityCodepoints`). */
  function EntityCodepointsOf(t: Table): Assoc<Text, Text>
    decreases |t|
  {
    if |t| == 0 then []
    else Put(EntityCodepointsOf(t[..|t| - 1]), EntityKey(t[|t| - 1].1), Codepoints(t[|t| - 1].1))
  }

  /** `:name:` => entity run (`getShortcodeEntities`). */
  function ShortcodeEntitiesOf(t: Table): Assoc<Text, Text>
    decreases |t|
  {
    if |t| == 0 then []
    else Put(ShortcodeEntitiesOf(t[..|t| - 1]), Matcher.Colon(t[|t| - 1].0), EntityKey(t[|t| - 1].1))
  }

  /** One more entry of the table is one more assignment to each derived array. */
  lemma DerivedSnoc(t: Table, i: nat)
    requires i < |t|
    ensures ShortcodeCodepointsOf(t[..i + 1]) == Put(ShortcodeCodepointsOf(t[..i]), Matcher.Colon(t[i].0), Codepoints(t[i].1))
    ensures EntityCodepointsOf(t[..i + 1]) == Put(EntityCodepointsOf(t[..i]), EntityKey(t[i].1), Codepoints(t[i].1))
    ensures ShortcodeEntitiesOf(t[..i + 1]) == Put(ShortcodeEntitiesOf(t[..i]), Matcher.Colon(t[i].0), EntityKey(t[i].1))
  {
    assert t[..i + 1][..i] == t[..i];
  }

  /** The codepoints read part by part from a hexcode are its codepoints. */
  lemma PartsCodepoints(hexcode: string, cps: seq<nat>)
    requires |cps| == |Explode('-', hexcode)|
    requires forall q :: 0 <= q < |cps| ==> cps[q] == Hex.HexValue(Explode('-', hexcode)[q])
    ensures cps == Codepoints(hexcode)
  {
  }

  /** A non-empty table gives non-empty derived arrays, which the caches then keep. */
  lemma DerivedNonEmpty(t: Table)
    requires |t| > 0
    ensures ShortcodeCodepointsOf(t) != [] && EntityCodepointsOf(t) != [] && ShortcodeEntitiesOf(t) != []
  {
    var init, last := t[..|t| - 1], t[|t| - 1];
    assert HasKey(ShortcodeCodepointsOf(t), Matcher.Colon(last.0));
    assert HasKey(EntityCodepointsOf(t), EntityKey(last.1));
    assert HasKey(ShortcodeEntitiesOf(t), Matcher.Colon(last.0));
  }

  /** Different names give different `:name:` tokens. */
  lemma ColonInjective(a: string, b: string)
    requires Matcher.Colon(a) == Matcher.Colon(b)
    ensures a == b
  {
    var ka, kb := Matcher.Colon(a), Matcher.Colon(b);
    assert |a| == |b|;
    forall i | 0 <= i < |a| ensures a[i] == b[i] {
      assert ka[i + 1] == kb[i + 1];
    }
  }

  /** Names without a colon: one `:name:` token only occurs inside another when they are the same. */
  lemma ColonOccurs(x: string, n: string)
    requires ':' !in x && ':' !in n
    requires Occurs(Matcher.Colon(x), Matcher.Colon(n))
    ensures x == n
  {
    var k, s := Matcher.Colon(x), Matcher.Colon(n);
    var p := OccursWitness(k, s);
    assert forall q :: 1 <= q <= |n| ==> s[q] == n[q - 1] as int;
    assert k[0] == s[p..][0] == s[p] == ':' as int;
    assert |s[p..]| >= |k| >= 2;
    assert p == 0;
    assert k[|x| + 1] == s[|x| + 1] == ':' as int;
    assert |x| == |n|;
    forall i | 0 <= i < |x| ensures x[i] == n[i] {
      assert k[i + 1] == s[i + 1];
    }
  }

  /** The last name of a table with distinct names has a `:name:` token of its own. */
  lemma NewColonKey(t: Table)
    requires DistinctKeys(t) && |t| > 0
    ensures forall j :: 0 <= j < |t| - 1 ==> Matcher.Colon(t[j].0) != Matcher.Colon(t[|t| - 1].0)
  {
    forall j | 0 <= j < |t| - 1 ensures Matcher.Colon(t[j].0) != Matcher.Colon(t[|t| - 1].0) {
      if Matcher.Colon(t[j].0) == Matcher.Colon(t[|t| - 1].0) {
        ColonInjective(t[j].0, t[|t| - 1].0);
      }
    }
  }

  /** The table's names, distinct as array keys are, give the `:name:` keys in table order. */
  lemma {:induction false} ShortcodeCodepointsShape(t: Table)
    requires DistinctKeys(t)
    ensures |ShortcodeCodepointsOf(t)| == |t|
    ensures forall i :: 0 <= i < |t| ==> ShortcodeCodepointsOf(t)[i] == (Matcher.Colon(t[i].0), Codepoints(t[i].1))
    decreases |t|
  {
    if |t| > 0 {
      var init := t[..|t| - 1];
      assert DistinctKeys(init);
      ShortcodeCodepointsShape(init);
      NewColonKey(t);
      ShortcodeCodepointsStep(t);
    }
  }

  lemma ShortcodeCodepointsStep(t: Table)
    requires |t| > 0
    requires forall j :: 0 <= j < |t| - 1 ==> Matcher.Colon(t[j].0) != Matcher.Colon(t[|t| - 1].0)
    requires |ShortcodeCodepointsOf(t[..|t| - 1])| == |t| - 1
    requires forall i :: 0 <= i < |t| - 1 ==> ShortcodeCodepointsOf(t[..|t| - 1])[i] == (Matcher.Colon(t[i].0), Codepoints(t[i].1))
    ensures |ShortcodeCodepointsOf(t)| == |t|
    ensures forall i :: 0 <= i < |t| ==> ShortcodeCodepointsOf(t)[i] == (Matcher.Colon(t[i].0), Codepoints(t[i].1))
  {
    var m := ShortcodeCodepointsOf(t[..|t| - 1]);
    var last := t[|t| - 1];
    forall j | 0 <= j < |m| ensures m[j].0 != Matcher.Colon(last.0) {
      assert m[j] == (Matcher.Colon(t[j].0), Codepoints(t[j].1));
    }
    assert !HasKey(m, Matcher.Colon(last.0));
  }

  /** Likewise for the `:name:` => entity-run array. */
  lemma {:induction false} ShortcodeEntitiesShape(t: Table)
    requires DistinctKeys(t)
    ensures |ShortcodeEntitiesOf(t)| == |t|
    ensures forall i :: 0 <= i < |t| ==> ShortcodeEntitiesOf(t)[i] == (Matcher.Colon(t[i].0), EntityKey(t[i].1))
    decreases |t|
  {
    if |t| > 0 {
      var init := t[..|t| - 1];
      assert DistinctKeys(init);
      ShortcodeEntitiesShape(init);
      NewColonKey(t);
      ShortcodeEntitiesStep(t);
    }
  }

  lemma ShortcodeEntitiesStep(t: Table)
    requires |t| > 0
    requires forall j :: 0 <= j < |t| - 1 ==> Matcher.Colon(t[j].0) != Matcher.Colon(t[|t| - 1].0)
    requires |ShortcodeEntitiesOf(t[..|t| - 1])| == |t| - 1
    requires forall i :: 0 <= i < |t| - 1 ==> ShortcodeEntitiesOf(t[..|t| - 1])[i] == (Matcher.Colon(t[i].0), EntityKey(t[i].1))
    ensures |ShortcodeEntitiesOf(t)| == |t|
    ensures forall i :: 0 <= i < |t| ==> ShortcodeEntitiesOf(t)[i] == (Matcher.Colon(t[i].0), EntityKey(t[i].1))
  {
    var m := ShortcodeEntitiesOf(t[..|t| - 1]);
    var last := t[|t| - 1];
    forall j | 0 <= j < |m| ensures m[j].0 != Matcher.Colon(last.0) {
      assert m[j] == (Matcher.Colon(t[j].0), EntityKey(t[j].1));
    }
    assert !HasKey(m, Matcher.Colon(last.0));
  }

  lemma {:induction false} EntityRunSnoc(a: seq<nat>, c: nat)
    ensures Entities.EntityRun(a + [c]) == Entities.EntityRun(a) + Entities.Entity(c)
    decreases |a|
  {
    if |a| == 0 {
      assert [c][1..] == [];
    } else {
      assert (a + [c])[1..] == a[1..] + [c];
      EntityRunSnoc(a[1..], c);
    }
  }

  /** The entity text of the `%X` spellings is the canonical entity run. */
  lemma {:induction false} EntityTextRun(cps: seq<nat>)
    ensures EntityText(Hex.HexParts(cps)) == Entities.EntityRun(cps)
    decreases |cps|
  {
    if |cps| > 0 {
      var init, c := cps[..|cps| - 1], cps[|cps| - 1];
      var parts := Hex.HexParts(cps);
      assert parts[..|cps| - 1] == Hex.HexParts(init);
      assert init + [c] == cps;
      calc {
        EntityText(parts);
        EntityText(Hex.HexParts(init)) + Lit("&#x") + Lit(Hex.HexDigits(c)) + Lit(";");
        { EntityTextRun(init); }
        Entities.EntityRun(init) + Entities.Entity(c);
        { EntityRunSnoc(init, c); }
        Entities.EntityRun(cps);
      }
    }
  }

  /** A canonical hexcode is keyed by the canonical entity run of its codepoints. */
  lemma EntityKeyCanonical(hexcode: string)
    requires hexcode == Hex.HexKey(Codepoints(hexcode))
    ensures EntityKey(hexcode) == Entities.EntityRun(Codepoints(hexcode))
  {
    var cps := Codepoints(hexcode);
    Hex.ExplodeHexKey(cps);
    EntityTextRun(cps);
  }

  /** No codepoint of the table is `&`. */
  predicate NoAmpersand(t: Table)
  {
    forall i :: 0 <= i < |t| ==> Entities.AMP !in Codepoints(t[i].1)
  }

  /** Every key of the entity array starts with `&`. */
  lemma {:induction false} EntityKeysStartWithAmp(t: Table)
    ensures forall j :: 0 <= j < |EntityCodepointsOf(t)| ==>
      |EntityCodepointsOf(t)[j].0| > 0 && EntityCodepointsOf(t)[j].0[0] == Entities.AMP
    decreases |t|
  {
    if |t| > 0 {
      var init, last := t[..|t| - 1], t[|t| - 1];
      EntityKeysStartWithAmp(init);
      var m := EntityCodepointsOf(init);
      var k := EntityKey(last.1);
      EntityTextStart(Explode('-', last.1));
      var r := Put(m, k, Codepoints(last.1));
      forall j | 0 <= j < |r| ensures |r[j].0| > 0 && r[j].0[0] == Entities.AMP {
        if j < |m| {
          assert r[j].0 == m[j].0;
        } else {
          assert r == m + [(k, Codepoints(last.1))];
        }
      }
    }
  }

  /** Non-empty codepoint sequences, each stored under `key` of itself, each key once. */
  predicate KeyedBy(m: Assoc<Text, Text>, key: seq<nat> -> Text)
  {
    DistinctKeys(m) &&
    forall j :: 0 <= j < |m| ==> m[j].0 == key(m[j].1) && |m[j].1| > 0
  }

  /** Values with longer hexcodes come first. */
  predicate KeysLongestFirst(m: Assoc<Text, Text>)
  {
    forall j, k :: 0 <= j < k < |m| ==> |Hex.HexKey(m[j].1)| >= |Hex.HexKey(m[k].1)|
  }

  predicate AllAtLeast(m: Assoc<Text, Text>, w: nat)
  {
    forall j :: 0 <= j < |m| ==> |Hex.HexKey(m[j].1)| >= w
  }

  ghost predicate Injective(key: seq<nat> -> Text)
  {
    forall a, b :: key(a) == key(b) ==> a == b
  }

  /**
   * Assigning a sequence under its key, when the sequence is no longer than
   * those present, keeps the array keyed and ordered.
   */
  lemma PutKeyed(m: Assoc<Text, Text>, key: seq<nat> -> Text, v: seq<nat>, w: nat)
    requires Injective(key) && KeyedBy(m, key) && KeysLongestFirst(m) && AllAtLeast(m, w)
    requires |v| > 0 && |Hex.HexKey(v)| <= w
    ensures KeyedBy(Put(m, key(v), v), key)
    ensures KeysLongestFirst(Put(m, key(v), v))
    ensures AllAtLeast(Put(m, key(v), v), |Hex.HexKey(v)|)
    ensures HasKey(Put(m, key(v), v), key(v))
    ensures forall k :: HasKey(m, k) ==> HasKey(Put(m, key(v), v), k)
  {
    var k := key(v);
    if HasKey(m, k) {
      var p := IndexOf(m, k);
      assert m[p].1 == v;
      assert Put(m, k, v) == m;
    } else {
      assert Put(m, k, v) == m + [(k, v)];
      AppendKeyed(m, key, v);
      AppendOrdered(m, v, k, w);
    }
  }

  lemma AppendKeyed(m: Assoc<Text, Text>, key: seq<nat> -> Text, v: seq<nat>)
    requires KeyedBy(m, key) && !HasKey(m, key(v)) && |v| > 0
    ensures KeyedBy(m + [(key(v), v)], key)
    ensures forall k :: HasKey(m, k) ==> HasKey(m + [(key(v), v)], k)
    ensures HasKey(m + [(key(v), v)], key(v))
  {
    var r := m + [(key(v), v)];
    assert r[|m|].0 == key(v);
    forall j | 0 <= j < |r| ensures r[j].0 == key(r[j].1) && |r[j].1| > 0 {
      if j < |m| {
        assert r[j] == m[j];
      }
    }
    forall k | HasKey(m, k) ensures HasKey(r, k) {
      var j :| 0 <= j < |m| && m[j].0 == k;
      assert r[j] == m[j];
    }
  }

  lemma AppendOrdered(m: Assoc<Text, Text>, v: seq<nat>, k: Text, w: nat)
    requires KeysLongestFirst(m) && AllAtLeast(m, w) && |Hex.HexKey(v)| <= w
    ensures KeysLongestFirst(m + [(k, v)])
    ensures AllAtLeast(m + [(k, v)], |Hex.HexKey(v)|)
  {
    var r := m + [(k, v)];
    assert forall j :: 0 <= j < |m| ==> r[j] == m[j];
  }

  /** Entity runs identify codepoint sequences. */
  lemma RunKeyInjective()
    ensures Injective(Entities.EntityRun)
  {
    forall a, b | Entities.EntityRun(a) == Entities.EntityRun(b) ensures a == b {
      Entities.RunInjective(a, b);
    }
  }

  /** What the entity array holds for a canonical table ordered longest first. */
  predicate EntityArrayFacts(t: Table, m: Assoc<Text, Text>)
  {
    KeyedBy(m, Entities.EntityRun) && KeysLongestFirst(m) &&
    (|t| > 0 ==> AllAtLeast(m, |t[|t| - 1].1|)) &&
    (forall i :: 0 <= i < |t| ==> HasKey(m, Entities.EntityRun(Codepoints(t[i].1))))
  }

  /**
   * For a canonical table ordered longest first, `getEntityCodepoints`
   * keys each codepoint sequence by its entity run, once, and keeps the
   * longest-first order.
   */
  lemma {:induction false} EntityArray(t: Table)
    requires Canonical(t) && LongestFirst(t)
    ensures EntityArrayFacts(t, EntityCodepointsOf(t))
    decreases |t|
  {
    if |t| > 0 {
      var init := t[..|t| - 1];
      assert Canonical(init) && LongestFirst(init);
      EntityArray(init);
      EntityArrayStep(t);
    }
  }

  lemma EntityArrayStep(t: Table)
    requires |t| > 0 && Canonical(t) && LongestFirst(t)
    requires EntityArrayFacts(t[..|t| - 1], EntityCodepointsOf(t[..|t| - 1]))
    ensures EntityArrayFacts(t, EntityCodepointsOf(t))
  {
    var init := t[..|t| - 1];
    var m := EntityCodepointsOf(init);
    var last := t[|t| - 1];
    var v := Codepoints(last.1);
    EntityKeyCanonical(last.1);
    assert |Hex.HexKey(v)| == |last.1|;
    var w := if |init| > 0 then |init[|init| - 1].1| else |last.1|;
    assert w >= |last.1|;
    RunKeyInjective();
    PutKeyed(m, Entities.EntityRun, v, w);
    var r := EntityCodepointsOf(t);
    assert r == Put(m, Entities.EntityRun(v), v);
    forall i | 0 <= i < |t| ensures HasKey(r, Entities.EntityRun(Codepoints(t[i].1))) {
      if i < |init| {
        assert t[i] == init[i];
      }
    }
  }

  /**
   * `str_replace` with the entity array turns the canonical entity run of
   * any sequence in the table back into its codepoints: no earlier key
   * occurs inside the run, because keys that occur in it belong to
   * shorter hexcodes, which come later; no later key occurs in the
   * codepoints, because every key starts with `&`.
   */
  lemma EntityRunDecodes(t: Table, i: nat)
    requires Canonical(t) && LongestFirst(t) && NoAmpersand(t) && i < |t|
    ensures StrReplace(EntityCodepointsOf(t), Entities.EntityRun(Codepoints(t[i].1))) == Codepoints(t[i].1)
  {
    var h := Codepoints(t[i].1);
    var run := Entities.EntityRun(h);
    var m := EntityCodepointsOf(t);
    EntityArray(t);
    var p := IndexOf(m, run);
    assert m[p].0 == Entities.EntityRun(m[p].1);
    Entities.RunInjective(m[p].1, h);
    forall j | 0 <= j < p ensures !Occurs(m[j].0, run) {
      var w := m[j].1;
      assert m[j].0 == Entities.EntityRun(w) && |w| > 0;
      if Occurs(m[j].0, run) {
        Entities.RunInfix(w, h);
        Hex.KeyShorter(w, h);
      }
    }
    forall j | p < j < |m| ensures !Occurs(m[j].0, m[p].1) {
      assert m[j].0 == Entities.EntityRun(m[j].1) && |m[j].1| > 0;
      if Occurs(m[j].0, h) {
        Entities.EntityShape(m[j].1[0]);
        OccursFirst(m[j].0, h);
      }
    }
    StrReplaceSingle(m, p, run);
  }

  /** Hex digits, `&`, `#`, `x` and `;`: no colon in an entity run. */
  lemma {:induction false} RunHasNoColon(cps: seq<nat>)
    ensures ':' as int !in Entities.EntityRun(cps)
    decreases |cps|
  {
    if |cps| > 0 {
      RunHasNoColon(cps[1..]);
      var d := Hex.HexDigits(cps[0]);
      assert forall q :: 0 <= q < |d| ==> Lit(d)[q] != ':' as int;
    }
  }

  /** Every name is free of colons, as `\w`-style shortcode names are. */
  predicate NoColonNames(t: Table)
  {
    forall i :: 0 <= i < |t| ==> ':' !in t[i].0
  }

  /** No codepoint of the table is `:`. */
  predicate NoColonCodepoints(t: Table)
  {
    forall i :: 0 <= i < |t| ==> ':' as int !in Codepoints(t[i].1)
  }

  /** No earlier `:name:` occurs inside another name's token. */
  lemma ColonKeysApart(t: Table, i: nat, j: nat)
    requires DistinctKeys(t) && NoColonNames(t) && i < |t| && j < |t| && j != i
    ensures !Occurs(Matcher.Colon(t[j].0), Matcher.Colon(t[i].0))
  {
    if Occurs(Matcher.Colon(t[j].0), Matcher.Colon(t[i].0)) {
      ColonOccurs(t[j].0, t[i].0);
    }
  }

  /** `shortcodeToUnicode` turns the token `:name:` of an entry into its codepoints. */
  lemma ShortcodeDecodes(t: Table, i: nat)
    requires DistinctKeys(t) && NoColonNames(t) && NoColonCodepoints(t) && i < |t|
    ensures StrReplace(ShortcodeCodepointsOf(t), Matcher.Colon(t[i].0)) == Codepoints(t[i].1)
  {
    var m := ShortcodeCodepointsOf(t);
    ShortcodeCodepointsShape(t);
    forall j | 0 <= j < i ensures !Occurs(m[j].0, Matcher.Colon(t[i].0)) {
      ColonKeysApart(t, i, j);
    }
    forall j | i < j < |m| ensures !Occurs(m[j].0, m[i].1) {
      if Occurs(m[j].0, m[i].1) {
        OccursFirst(m[j].0, m[i].1);
      }
    }
    StrReplaceSingle(m, i, Matcher.Colon(t[i].0));
  }

  /** `shortcodeToEntities` turns the token `:name:` of an entry into its entity run. */
  lemma ShortcodeEntityEncodes(t: Table, i: nat)
    requires DistinctKeys(t) && NoColonNames(t) && Canonical(t) && i < |t|
    ensures StrReplace(ShortcodeEntitiesOf(t), Matcher.Colon(t[i].0)) == Entities.EntityRun(Codepoints(t[i].1))
  {
    var m := ShortcodeEntitiesOf(t);
    ShortcodeEntitiesShape(t);
    EntityKeyCanonical(t[i].1);
    forall j | 0 <= j < i ensures !Occurs(m[j].0, Matcher.Colon(t[i].0)) {
      ColonKeysApart(t, i, j);
    }
    forall j | i < j < |m| ensures !Occurs(m[j].0, m[i].1) {
      if Occurs(m[j].0, m[i].1) {
        OccursFirst(m[j].0, m[i].1);
        RunHasNoColon(Codepoints(t[i].1));
      }
    }
    StrReplaceSingle(m, i, Matcher.Colon(t[i].0));
  }

  /** Text in which no token of the table occurs passes both token replacements unchanged. */
  lemma NoTokenUnchanged(t: Table, s: Text)
    requires DistinctKeys(t)
    requires forall j :: 0 <= j < |t| ==> !Occurs(Matcher.Colon(t[j].0), s)
    ensures StrReplace(ShortcodeCodepointsOf(t), s) == s
    ensures StrReplace(ShortcodeEntitiesOf(t), s) == s
  {
    ShortcodeCodepointsShape(t);
    ShortcodeEntitiesShape(t);
    StrReplaceAbsent(ShortcodeCodepointsOf(t), s);
    StrReplaceAbsent(ShortcodeEntitiesOf(t), s);
  }
}
