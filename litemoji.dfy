/**
 * The conversion engine of `LitEmoji`: the four primitive conversions, the
 * three encoders composed from them, emoji removal, and the class that
 * holds the exclusion list and the lazily built lookup arrays.
 *
 * The module-level functions describe the conversions for a given
 * (already filtered) shortcode table; the class `LitEmoji` shows which
 * table each of its caches was built from, which is where the engine's
 * state matters.
 */
module LitEmoji {
  import opened PhpArray
  import opened PhpString
  import Hex
  import Entities
  import Matcher
  import opened Tables

  /** `shortcodeToUnicode`: each `:name:` replaced by its codepoints. */
  function ShortcodeToUnicodeOf(t: Table, s: Text): Text
  {
    StrReplace(ShortcodeCodepointsOf(t), s)
  }

  /** `entitiesToUnicode`: references normalised, then each entity run replaced by its codepoints. */
  function EntitiesToUnicodeOf(t: Table, s: Text): Text
  {
    StrReplace(EntityCodepointsOf(t), Entities.Normalize(s))
  }

  /** The tokens the reconstruction loop of `unicodeToShortcode` emits. */
  function ShortcodeTokens(t: Table, pattern: set<nat>, s: Text): seq<Matcher.Token>
  {
    Matcher.RunFrom(Flip(t), Matcher.State([], []), Matcher.Split(s, pattern)).tokens
  }

  /** `unicodeToShortcode`, over the reverse index of `t`. */
  function UnicodeToShortcodeOf(t: Table, pattern: set<nat>, s: Text): Text
  {
    Matcher.Render(ShortcodeTokens(t, pattern, s))
  }

  /** `shortcodeToEntities`: each `:name:` replaced by its entity run. */
  function ShortcodeToEntitiesOf(t: Table, s: Text): Text
  {
    StrReplace(ShortcodeEntitiesOf(t), s)
  }

  /** `encodeShortcode`: entities to unicode, then unicode to shortcodes. */
  function EncodeShortcodeOf(t: Table, pattern: set<nat>, s: Text): Text
  {
    UnicodeToShortcodeOf(t, pattern, EntitiesToUnicodeOf(t, s))
  }

  /** `encodeHtml`: unicode to shortcodes, then shortcodes to entities. */
  function EncodeHtmlOf(t: Table, pattern: set<nat>, s: Text): Text
  {
    ShortcodeToEntitiesOf(t, UnicodeToShortcodeOf(t, pattern, s))
  }

  /** `encodeUnicode`: shortcodes to unicode, then entities to unicode. */
  function EncodeUnicodeOf(t: Table, s: Text): Text
  {
    EntitiesToUnicodeOf(t, ShortcodeToUnicodeOf(t, s))
  }

  const COLON: nat := 58

  /** `\w`: an ASCII letter, digit or underscore. */
  predicate IsWord(c: nat)
  {
    Entities.IsAlnum(c) || c == 95
  }

  /** The first position at or after `i` that does not hold a word character. */
  function WordEnd(t: Text, i: nat): (j: nat)
    requires i <= |t|
    ensures i <= j <= |t|
    ensures forall k :: i <= k < j ==> IsWord(t[k])
    ensures j < |t| ==> !IsWord(t[j])
    decreases |t| - i
  {
    if i == |t| || !IsWord(t[i]) then i else WordEnd(t, i + 1)
  }

  /** `preg_replace('/\:\w+\:/', '', $t)`: tokens deleted left to right, without overlap. */
  function RemoveTokens(t: Text): (r: Text)
    ensures |r| <= |t|
    decreases |t|
  {
    if |t| == 0 then []
    else if t[0] == COLON && WordEnd(t, 1) > 1 && WordEnd(t, 1) < |t| && t[WordEnd(t, 1)] == COLON then
      RemoveTokens(t[WordEnd(t, 1) + 1..])
    else [t[0]] + RemoveTokens(t[1..])
  }

  /** `removeEmoji`: the shortcodes `encodeShortcode` produces, deleted. */
  function RemoveEmojiOf(t: Table, pattern: set<nat>, s: Text): Text
  {
    RemoveTokens(EncodeShortcodeOf(t, pattern, s))
  }

  /** Text without an `&` passes `entitiesToUnicode` unchanged. */
  lemma NoAmpUnchanged(t: Table, s: Text)
    requires Entities.AMP !in s
    ensures EntitiesToUnicodeOf(t, s) == s
  {
    Entities.NormalizeNoAmp(s);
    var m := EntityCodepointsOf(t);
    EntityKeysStartWithAmp(t);
    forall j | 0 <= j < |m| ensures !Occurs(m[j].0, s) {
      if Occurs(m[j].0, s) {
        OccursFirst(m[j].0, s);
      }
    }
    StrReplaceAbsent(m, s);
  }

  /** `:name:` of an entry, with no emoji codepoint in it, becomes the entry's entity run under `encodeHtml`. */
  lemma EncodeHtmlToken(t: Table, pattern: set<nat>, i: nat)
    requires DistinctKeys(t) && NoColonNames(t) && Canonical(t) && i < |t|
    requires Matcher.NoneIn(Matcher.Colon(t[i].0), pattern)
    ensures EncodeHtmlOf(t, pattern, Matcher.Colon(t[i].0)) == Entities.EntityRun(Codepoints(t[i].1))
  {
    Matcher.NoEmojiUnchanged(Flip(t), pattern, Matcher.Colon(t[i].0));
    ShortcodeEntityEncodes(t, i);
  }

  /** `:name:` of an entry becomes the entry's codepoints under `encodeUnicode`. */
  lemma EncodeUnicodeToken(t: Table, i: nat)
    requires DistinctKeys(t) && NoColonNames(t) && NoColonCodepoints(t) && NoAmpersand(t) && i < |t|
    ensures EncodeUnicodeOf(t, Matcher.Colon(t[i].0)) == Codepoints(t[i].1)
  {
    ShortcodeDecodes(t, i);
    NoAmpUnchanged(t, Codepoints(t[i].1));
  }

  /** The canonical entity run of an entry becomes the entry's codepoints under `encodeUnicode`. */
  lemma EncodeUnicodeEntities(t: Table, i: nat)
    requires DistinctKeys(t) && Canonical(t) && LongestFirst(t) && NoAmpersand(t) && i < |t|
    ensures EncodeUnicodeOf(t, Entities.EntityRun(Codepoints(t[i].1))) == Codepoints(t[i].1)
  {
    var h := Codepoints(t[i].1);
    var run := Entities.EntityRun(h);
    RunHasNoColon(h);
    forall j | 0 <= j < |t| ensures !Occurs(Matcher.Colon(t[j].0), run) {
      if Occurs(Matcher.Colon(t[j].0), run) {
        OccursFirst(Matcher.Colon(t[j].0), run);
      }
    }
    NoTokenUnchanged(t, run);
    Entities.NormalizeRun(h, []);
    assert run + [] == run;
    EntityRunDecodes(t, i);
  }

  /** `encodeHtml` then `encodeUnicode` turns an entry's `:name:` into its codepoints. */
  lemma HtmlThenUnicode(t: Table, pattern: set<nat>, i: nat)
    requires DistinctKeys(t) && NoColonNames(t) && Canonical(t) && LongestFirst(t) && NoAmpersand(t) && i < |t|
    requires Matcher.NoneIn(Matcher.Colon(t[i].0), pattern)
    ensures EncodeUnicodeOf(t, EncodeHtmlOf(t, pattern, Matcher.Colon(t[i].0))) == Codepoints(t[i].1)
  {
    EncodeHtmlToken(t, pattern, i);
    EncodeUnicodeEntities(t, i);
  }

  /** A decimal reference `&#n;` to a single-codepoint entry becomes that codepoint. */
  lemma DecimalEntityDecodes(t: Table, i: nat, n: nat)
    requires Canonical(t) && LongestFirst(t) && NoAmpersand(t) && i < |t| && Codepoints(t[i].1) == [n]
    ensures EntitiesToUnicodeOf(t, Lit("&#") + Lit(Hex.DecDigits(n)) + Lit(";")) == [n]
  {
    Entities.NormalizeDecimalEntity(n, []);
    assert Lit("&#") + Lit(Hex.DecDigits(n)) + Lit(";") + [] == Lit("&#") + Lit(Hex.DecDigits(n)) + Lit(";");
    assert Entities.EntityRun([n]) == Entities.Entity(n) + Entities.EntityRun([]);
    EntityRunDecodes(t, i);
  }

  /** A hex reference `&#xh;` in either case to a single-codepoint entry becomes that codepoint. */
  lemma HexEntityDecodes(t: Table, i: nat, n: nat, h: Text)
    requires Canonical(t) && LongestFirst(t) && NoAmpersand(t) && i < |t| && Codepoints(t[i].1) == [n]
    requires forall k :: 0 <= k < |h| ==> Entities.IsAlnum(h[k])
    requires Entities.Upper(h) == Lit(Hex.HexDigits(n))
    ensures EntitiesToUnicodeOf(t, Lit("&#x") + h + Lit(";")) == [n]
  {
    Entities.NormalizeHexEntity(h, []);
    assert Lit("&#x") + h + Lit(";") + [] == Lit("&#x") + h + Lit(";");
    assert Entities.EntityRun([n]) == Entities.Entity(n) + Entities.EntityRun([]);
    EntityRunDecodes(t, i);
  }

  /**
   * No codepoint of `cps` alone, and no proper prefix of it, is spelled by
   * a hexcode of the table: the loop reaches the whole sequence.
   */
  predicate Unshadowed(t: Table, cps: seq<nat>)
  {
    forall k :: 0 <= k < |t| ==>
      (forall q :: 0 <= q < |cps| ==> t[k].1 != Hex.HexKey([cps[q]])) &&
      (forall j :: 1 <= j < |cps| ==> t[k].1 != Hex.HexKey(cps[..j]))
  }

  /**
   * `encodeShortcode` turns the codepoints of an entry into `:name:` for
   * the name listed last with that hexcode, when the loop can reach the
   * whole sequence; when the entry is itself the last one with its
   * hexcode, that is its own name.
   */
  lemma EncodeShortcodeRecognized(t: Table, pattern: set<nat>, i: nat)
    requires Canonical(t) && NoAmpersand(t) && i < |t|
    requires forall q :: 0 <= q < |Codepoints(t[i].1)| ==> Codepoints(t[i].1)[q] in pattern
    requires |Codepoints(t[i].1)| == 1 || Unshadowed(t, Codepoints(t[i].1))
    ensures LastNameFor(t, t[i].1).Some?
    ensures EncodeShortcodeOf(t, pattern, Codepoints(t[i].1)) == Matcher.Colon(LastNameFor(t, t[i].1).value)
    ensures (forall j :: i < j < |t| ==> t[j].1 != t[i].1) ==>
      EncodeShortcodeOf(t, pattern, Codepoints(t[i].1)) == Matcher.Colon(t[i].0)
  {
    var cps := Codepoints(t[i].1);
    var index := Flip(t);
    NoAmpUnchanged(t, cps);
    FlipLastWins(t, t[i].1);
    LastNameForFinds(t, t[i].1);
    var name := LastNameFor(t, t[i].1).value;
    assert Matcher.Lookup(index, cps) == Some(name);
    if |cps| > 1 {
      forall q | 0 <= q < |cps| ensures Matcher.Lookup(index, [cps[q]]).None? {
        FlipLastWins(t, Hex.HexKey([cps[q]]));
        LastNameForFinds(t, Hex.HexKey([cps[q]]));
      }
      forall j | 1 <= j < |cps| ensures Matcher.Lookup(index, cps[..j]).None? {
        FlipLastWins(t, Hex.HexKey(cps[..j]));
        LastNameForFinds(t, Hex.HexKey(cps[..j]));
      }
    }
    Matcher.RecognizedBecomesShortcode(index, pattern, cps, name);
    if forall j :: i < j < |t| ==> t[j].1 != t[i].1 {
      var w :| 0 <= w < |t| && t[w] == (name, t[i].1) && forall j :: w < j < |t| ==> t[j].1 != t[i].1;
      assert w == i;
    }
  }

  /**
   * The shortcode round trip: `encodeUnicode` then `encodeShortcode` gives
   * back `:name:` for an entry that is the last with its hexcode.
   */
  lemma ShortcodeRoundTrip(t: Table, pattern: set<nat>, i: nat)
    requires DistinctKeys(t) && Canonical(t) && NoColonNames(t) && NoColonCodepoints(t) && NoAmpersand(t) && i < |t|
    requires forall q :: 0 <= q < |Codepoints(t[i].1)| ==> Codepoints(t[i].1)[q] in pattern
    requires |Codepoints(t[i].1)| == 1 || Unshadowed(t, Codepoints(t[i].1))
    requires forall j :: i < j < |t| ==> t[j].1 != t[i].1
    ensures EncodeShortcodeOf(t, pattern, EncodeUnicodeOf(t, Matcher.Colon(t[i].0))) == Matcher.Colon(t[i].0)
  {
    EncodeUnicodeToken(t, i);
    EncodeShortcodeRecognized(t, pattern, i);
  }

  /**
   * A zero-padded hexcode such as `00A9` is never found: the loop looks the
   * codepoint up under its `%X` spelling `A9`, so the codepoint is dropped,
   * although `shortcodeToUnicode` still produces it from `:copyright:`.
   */
  lemma PaddedHexcodeMissed(pattern: set<nat>)
    requires 0xA9 in pattern
    ensures ShortcodeToUnicodeOf([("copyright", "00A9")], Matcher.Colon("copyright")) == [0xA9]
    ensures UnicodeToShortcodeOf([("copyright", "00A9")], pattern, [0xA9]) == []
  {
    var t: Table := [("copyright", "00A9")];
    PaddedCodepoints();
    assert ':' as int !in Codepoints("00A9");
    ShortcodeDecodes(t, 0);
    PaddedKeyDiffers();
    assert Flip(t) == Put([], "00A9", "copyright");
    PutOther([], "00A9", "copyright", "A9");
    Matcher.UnnamedCodepointDropped(Flip(t), pattern, 0xA9);
  }

  /** `hexdec` reads the padded `00A9` as 0xA9. */
  lemma PaddedCodepoints()
    ensures Codepoints("00A9") == [0xA9]
  {
    ExplodeNoSep('-', "00A9");
    assert "00A9"[..3] == "00A" && "00A"[..2] == "00" && "00"[..1] == "0" && "0"[..0] == "";
    assert Hex.HexValue("00") == 0;
    assert Hex.HexValue("00A9") == 0xA9;
  }

  /** `sprintf('%X', 0xA9)` is `A9`, not `00A9`. */
  lemma PaddedKeyDiffers()
    ensures Hex.HexKey([0xA9]) == "A9" != "00A9"
  {
    assert Hex.HexDigits(0xA9) == "A9";
    assert Hex.HexParts([0xA9]) == ["A9"];
  }

  /** Every shortcode `unicodeToShortcode` emits names an entry of the table. */
  lemma EmittedNamesListed(t: Table, pattern: set<nat>, s: Text)
    ensures forall k :: 0 <= k < |ShortcodeTokens(t, pattern, s)| && ShortcodeTokens(t, pattern, s)[k].Shortcode? ==>
      exists j :: 0 <= j < |t| && t[j].0 == ShortcodeTokens(t, pattern, s)[k].name
  {
    var index := Flip(t);
    Matcher.RunFromNames(index, Matcher.State([], []), Matcher.Split(s, pattern));
    FlipPairs(t);
    var ts := ShortcodeTokens(t, pattern, s);
    forall k | 0 <= k < |ts| && ts[k].Shortcode? ensures exists j :: 0 <= j < |t| && t[j].0 == ts[k].name {
      assert Matcher.IsName(index, ts[k].name);
      var w :| 0 <= w < |index| && index[w].1 == ts[k].name;
      var j :| 0 <= j < |t| && t[j] == (index[w].1, index[w].0);
    }
  }

  /** An excluded name is never emitted: the reverse index is built from the filtered table. */
  lemma ExcludedNeverEmitted(t: Table, excluded: seq<string>, pattern: set<nat>, s: Text)
    ensures forall k ::
      (0 <= k < |ShortcodeTokens(Filter(t, excluded), pattern, s)| && ShortcodeTokens(Filter(t, excluded), pattern, s)[k].Shortcode?) ==>
        ShortcodeTokens(Filter(t, excluded), pattern, s)[k].name !in excluded
  {
    var f := Filter(t, excluded);
    EmittedNamesListed(f, pattern, s);
    FilterKeeps(t, excluded);
    assert forall j :: 0 <= j < |f| ==> f[j] in f;
  }

  /** Text without a colon passes `preg_replace('/\:\w+\:/', '')` unchanged. */
  lemma {:induction false} RemoveTokensNoColon(t: Text)
    requires COLON !in t
    ensures RemoveTokens(t) == t
    decreases |t|
  {
    if |t| > 0 {
      RemoveTokensNoColon(t[1..]);
      assert [t[0]] + t[1..] == t;
    }
  }

  /** Colon-free text before the rest is kept as it is. */
  lemma {:induction false} RemoveTokensKeepsPrefix(a: Text, rest: Text)
    requires COLON !in a
    ensures RemoveTokens(a + rest) == a + RemoveTokens(rest)
    decreases |a|
  {
    if |a| > 0 {
      assert (a + rest)[0] == a[0];
      assert (a + rest)[1..] == a[1..] + rest;
      RemoveTokensKeepsPrefix(a[1..], rest);
      assert [a[0]] + a[1..] == a;
    } else {
      assert a + rest == rest;
    }
  }

  /** A `:name:` whose name is one or more word characters is deleted. */
  lemma RemoveTokensDeletesToken(n: string, rest: Text)
    requires |n| > 0 && forall k :: 0 <= k < |n| ==> IsWord(n[k] as int)
    ensures RemoveTokens(Matcher.Colon(n) + rest) == RemoveTokens(rest)
  {
    var t := Matcher.Colon(n) + rest;
    assert forall k :: 1 <= k <= |n| ==> t[k] == n[k - 1] as int;
    assert t[|n| + 1] == COLON;
    WordEndAt(t, 1, |n| + 1);
    assert t[|n| + 2..] == rest;
  }

  lemma {:induction false} WordEndAt(t: Text, i: nat, j: nat)
    requires i <= j < |t|
    requires forall k :: i <= k < j ==> IsWord(t[k])
    requires !IsWord(t[j])
    ensures WordEnd(t, i) == j
    decreases j - i
  {
    if i < j {
      WordEndAt(t, i + 1, j);
    }
  }

  /** A `:name:` whose name holds a character outside `\w`, such as `:flag-au:`, is kept. */
  lemma RemoveTokensKeepsOtherNames(n: string)
    requires ':' !in n
    requires exists k :: 0 <= k < |n| && !IsWord(n[k] as int)
    ensures RemoveTokens(Matcher.Colon(n)) == Matcher.Colon(n)
  {
    var t := Matcher.Colon(n);
    var k :| 0 <= k < |n| && !IsWord(n[k] as int);
    assert forall q :: 1 <= q <= |n| ==> t[q] == n[q - 1] as int;
    assert t[k + 1] == n[k] as int;
    var j := WordEnd(t, 1);
    assert j <= k + 1;
    assert t[1..] == Lit(n) + [COLON];
    RemoveTokensKeepsPrefix(Lit(n), [COLON]);
    assert [COLON][1..] == [];
    assert RemoveTokens([COLON]) == [COLON];
    assert [t[0]] + t[1..] == t;
  }

  /** `removeEmoji` deletes an entry's sequence when its name is made of word characters. */
  lemma RemoveEmojiDeletes(t: Table, pattern: set<nat>, i: nat)
    requires Canonical(t) && NoAmpersand(t) && i < |t|
    requires forall q :: 0 <= q < |Codepoints(t[i].1)| ==> Codepoints(t[i].1)[q] in pattern
    requires |Codepoints(t[i].1)| == 1 || Unshadowed(t, Codepoints(t[i].1))
    requires forall j :: i < j < |t| ==> t[j].1 != t[i].1
    requires |t[i].0| > 0 && forall k :: 0 <= k < |t[i].0| ==> IsWord(t[i].0[k] as int)
    ensures RemoveEmojiOf(t, pattern, Codepoints(t[i].1)) == []
  {
    EncodeShortcodeRecognized(t, pattern, i);
    RemoveTokensDeletesToken(t[i].0, []);
    assert Matcher.Colon(t[i].0) + [] == Matcher.Colon(t[i].0);
  }

  /** `removeEmoji` leaves the shortcode of a sequence named with a non-word character. */
  lemma RemoveEmojiKeepsOtherNames(t: Table, pattern: set<nat>, i: nat)
    requires Canonical(t) && NoAmpersand(t) && NoColonNames(t) && i < |t|
    requires forall q :: 0 <= q < |Codepoints(t[i].1)| ==> Codepoints(t[i].1)[q] in pattern
    requires |Codepoints(t[i].1)| == 1 || Unshadowed(t, Codepoints(t[i].1))
    requires forall j :: i < j < |t| ==> t[j].1 != t[i].1
    requires exists k :: 0 <= k < |t[i].0| && !IsWord(t[i].0[k] as int)
    ensures RemoveEmojiOf(t, pattern, Codepoints(t[i].1)) == Matcher.Colon(t[i].0)
  {
    EncodeShortcodeRecognized(t, pattern, i);
    RemoveTokensKeepsOtherNames(t[i].0);
  }
  /**
   * `preg_replace('/\:\w+\:/', '')` is not idempotent: deleting `:y:` from
   * `::y:z:` brings the first colon next to `z:`, and a second pass deletes
   * the `:z:` that the first pass made.
   */
  lemma RemoveTokensTwice()
    ensures RemoveTokens([COLON, COLON, 'y' as nat, COLON, 'z' as nat, COLON]) == [COLON, 'z' as nat, COLON]
    ensures RemoveTokens([COLON, 'z' as nat, COLON]) == []
  {
    var z: Text := [COLON, 'z' as nat, COLON];
    assert WordEnd(z, 2) == 2 && WordEnd(z, 1) == 2;
    assert RemoveTokens(z) == RemoveTokens([]);
    var zr: Text := ['z' as nat, COLON];
    assert RemoveTokens([COLON]) == [COLON];
    assert RemoveTokens(zr) == ['z' as nat] + RemoveTokens(zr[1..]);
    var y: Text := [COLON, 'y' as nat, COLON] + zr;
    assert WordEnd(y, 2) == 2 && WordEnd(y, 1) == 2;
    assert y[3..] == zr;
    assert RemoveTokens(y) == RemoveTokens(zr);
    var s: Text := [COLON] + y;
    assert WordEnd(s, 1) == 1;
    assert s[1..] == y;
    assert s == [COLON, COLON, 'y' as nat, COLON, 'z' as nat, COLON];
  }

  /** Hence `removeEmoji` is not idempotent either, whatever the table, while its emoji lie outside ASCII. */
  lemma RemoveEmojiNotIdempotent(t: Table, pattern: set<nat>)
    requires forall c :: c in pattern ==> c >= 0x80
    ensures RemoveEmojiOf(t, pattern, [COLON, COLON, 'y' as nat, COLON, 'z' as nat, COLON]) == [COLON, 'z' as nat, COLON]
    ensures RemoveEmojiOf(t, pattern, [COLON, 'z' as nat, COLON]) == []
  {
    RemoveTokensTwice();
    AsciiPasses(t, pattern, [COLON, COLON, 'y' as nat, COLON, 'z' as nat, COLON]);
    AsciiPasses(t, pattern, [COLON, 'z' as nat, COLON]);
  }

  /** ASCII text without `&` comes out of `encodeShortcode` unchanged. */
  lemma AsciiPasses(t: Table, pattern: set<nat>, s: Text)
    requires forall c :: c in pattern ==> c >= 0x80
    requires Entities.AMP !in s && forall k :: 0 <= k < |s| ==> s[k] < 0x80
    ensures EncodeShortcodeOf(t, pattern, s) == s
  {
    NoAmpUnchanged(t, s);
    Matcher.NoEmojiUnchanged(Flip(t), pattern, s);
  }


  /** A value handed to `config`: a string, an array, or any other PHP value. */
  datatype PhpValue = Str(s: string) | Arr(items: seq<PhpValue>) | Other

  /** What `foreach` visits: an array's items, or a scalar wrapped as `[$value]`. */
  function Elements(v: PhpValue): (r: seq<PhpValue>)
    ensures !v.Arr? ==> r == [v]
    ensures v.Arr? ==> r == v.items
  {
    if v.Arr? then v.items else [v]
  }

  /** The string elements, in order. */
  function Strings(items: seq<PhpValue>): (r: seq<string>)
    ensures forall s :: s in r <==> Str(s) in items
    ensures |r| <= |items|
    decreases |items|
  {
    if |items| == 0 then []
    else
      var init := items[..|items| - 1];
      var last := items[|items| - 1];
      assert items == init + [last];
      Strings(init) + (if last.Str? then [last.s] else [])
  }

  /** `$a ?: $b` for the lookup arrays: a non-empty cache, or the fresh build. */
  function Cached(cache: Assoc<Text, Text>, build: Assoc<Text, Text>): Assoc<Text, Text>
  {
    if cache != [] then cache else build
  }

  /**
   * The inner loop of `getShortcodeCodepoints`: each hyphen part read by
   * `hexdec`, the codepoints appended in order.
   */
  method HexValues(parts: seq<string>) returns (codepoint: Text)
    ensures |codepoint| == |parts|
    ensures forall q :: 0 <= q < |parts| ==> codepoint[q] == Hex.HexValue(parts[q])
  {
    codepoint := [];
    for k := 0 to |parts|
      invariant |codepoint| == k && forall q :: 0 <= q < k ==> codepoint[q] == Hex.HexValue(parts[q])
    {
      codepoint := codepoint + [Hex.HexValue(parts[k])];
    }
  }

  /**
   * The inner loop of `getEntityCodepoints`: `'&#x' . $part . ';'` appended
   * to the entity and the part's codepoint to the text, part by part.
   */
  method EntityValues(parts: seq<string>) returns (entity: Text, codepoint: Text)
    ensures entity == EntityText(parts)
    ensures |codepoint| == |parts|
    ensures forall q :: 0 <= q < |parts| ==> codepoint[q] == Hex.HexValue(parts[q])
  {
    entity, codepoint := [], [];
    for k := 0 to |parts|
      invariant entity == EntityText(parts[..k])
      invariant |codepoint| == k && forall q :: 0 <= q < k ==> codepoint[q] == Hex.HexValue(parts[q])
    {
      assert parts[..k + 1][..k] == parts[..k];
      entity := entity + Lit("&#x") + Lit(parts[k]) + Lit(";");
      codepoint := codepoint + [Hex.HexValue(parts[k])];
    }
    assert parts[..|parts|] == parts;
  }

  /**
   * The engine's static state. `preset` is the generated shortcode table and
   * `pattern` the set of codepoints the generated emoji pattern matches. The
   * ghost fields record the exclusion list each lookup array was built
   * under: `config` clears only `shortcodes`, so the other three caches
   * keep whatever exclusions were in force when they were first built.
   */
  class LitEmoji {
    const preset: Table
    const pattern: set<nat>
    var excludedShortcodes: seq<string>
    var shortcodes: Table
    var shortcodeCodepoints: Assoc<Text, Text>
    var shortcodeEntities: Assoc<Text, Text>
    var entityCodepoints: Assoc<Text, Text>
    ghost var codepointsBuiltFor: seq<string>
    ghost var entitiesBuiltFor: seq<string>
    ghost var entityCodepointsBuiltFor: seq<string>

    /** Each cache is empty or holds what its builder makes of the table filtered by its exclusions. */
    ghost predicate Valid()
      reads this
    {
      ShortcodesValid() && CodepointsValid() && EntitiesValid() && EntityCodepointsValid()
    }

    ghost predicate ShortcodesValid()
      reads this`shortcodes, this`excludedShortcodes
    {
      shortcodes == [] || shortcodes == Filter(preset, excludedShortcodes)
    }

    ghost predicate CodepointsValid()
      reads this`shortcodeCodepoints, this`codepointsBuiltFor
    {
      shortcodeCodepoints == [] || shortcodeCodepoints == ShortcodeCodepointsOf(Filter(preset, codepointsBuiltFor))
    }

    ghost predicate EntitiesValid()
      reads this`shortcodeEntities, this`entitiesBuiltFor
    {
      shortcodeEntities == [] || shortcodeEntities == ShortcodeEntitiesOf(Filter(preset, entitiesBuiltFor))
    }

    ghost predicate EntityCodepointsValid()
      reads this`entityCodepoints, this`entityCodepointsBuiltFor
    {
      entityCodepoints == [] || entityCodepoints == EntityCodepointsOf(Filter(preset, entityCodepointsBuiltFor))
    }

    constructor(preset: Table, pattern: set<nat>)
      ensures Valid()
      ensures this.preset == preset && this.pattern == pattern
      ensures excludedShortcodes == [] && shortcodes == []
      ensures shortcodeCodepoints == [] && shortcodeEntities == [] && entityCodepoints == []
      ensures codepointsBuiltFor == [] && entitiesBuiltFor == [] && entityCodepointsBuiltFor == []
    {
      this.preset := preset;
      this.pattern := pattern;
      excludedShortcodes := [];
      shortcodes := [];
      shortcodeCodepoints := [];
      shortcodeEntities := [];
      entityCodepoints := [];
      codepointsBuiltFor := [];
      entitiesBuiltFor := [];
      entityCodepointsBuiltFor := [];
    }

    /** `getShortcodes`: the table without the excluded names, cached. */
    method GetShortcodes() returns (r: Table)
      requires Valid()
      modifies this`shortcodes
      ensures Valid()
      ensures r == shortcodes == Filter(preset, excludedShortcodes)
    {
      if shortcodes != [] {
        return shortcodes;
      }
      shortcodes := Filter(preset, excludedShortcodes);
      r := shortcodes;
    }

    /** `getShortcodeCodepoints`: `:name:` => codepoints, built once. */
    method GetShortcodeCodepoints() returns (r: Assoc<Text, Text>)
      requires Valid()
      modifies this`shortcodes, this`shortcodeCodepoints, this`codepointsBuiltFor
      ensures Valid()
      ensures r == shortcodeCodepoints == Cached(old(shortcodeCodepoints), ShortcodeCodepointsOf(Filter(preset, excludedShortcodes)))
      ensures r == ShortcodeCodepointsOf(Filter(preset, codepointsBuiltFor))
      ensures codepointsBuiltFor == if old(shortcodeCodepoints) != [] then old(codepointsBuiltFor) else excludedShortcodes
    {
      if shortcodeCodepoints != [] {
        return shortcodeCodepoints;
      }
      var table := GetShortcodes();
      codepointsBuiltFor := excludedShortcodes;
      FillShortcodeCodepoints(table);
      r := shortcodeCodepoints;
      assert CodepointsValid();
    }

    /** The `foreach` of `getShortcodeCodepoints`, filling the empty array entry by entry. */
    method FillShortcodeCodepoints(table: Table)
      requires shortcodeCodepoints == []
      modifies this`shortcodeCodepoints
      ensures shortcodeCodepoints == ShortcodeCodepointsOf(table)
    {
      for i := 0 to |table|
        invariant shortcodeCodepoints == ShortcodeCodepointsOf(table[..i])
      {
        DerivedSnoc(table, i);
        AddShortcodeCodepoint(table[i].0, table[i].1);
      }
      assert table[..|table|] == table;
    }

    /** The body of the `foreach` in `getShortcodeCodepoints`: one entry's codepoints stored under `:name:`. */
    method AddShortcodeCodepoint(shortcode: string, hexcode: string)
      modifies this`shortcodeCodepoints
      ensures shortcodeCodepoints == Put(old(shortcodeCodepoints), Matcher.Colon(shortcode), Codepoints(hexcode))
    {
      var parts := Explode('-', hexcode);
      var codepoint := HexValues(parts);
      PartsCodepoints(hexcode, codepoint);
      shortcodeCodepoints := Put(shortcodeCodepoints, Matcher.Colon(shortcode), codepoint);
    }

    /** `getEntityCodepoints`: entity run => codepoints, built once. */
    method GetEntityCodepoints() returns (r: Assoc<Text, Text>)
      requires Valid()
      modifies this`shortcodes, this`entityCodepoints, this`entityCodepointsBuiltFor
      ensures Valid()
      ensures r == entityCodepoints == Cached(old(entityCodepoints), EntityCodepointsOf(Filter(preset, excludedShortcodes)))
      ensures r == EntityCodepointsOf(Filter(preset, entityCodepointsBuiltFor))
      ensures entityCodepointsBuiltFor == if old(entityCodepoints) != [] then old(entityCodepointsBuiltFor) else excludedShortcodes
    {
      if entityCodepoints != [] {
        return entityCodepoints;
      }
      var table := GetShortcodes();
      entityCodepointsBuiltFor := excludedShortcodes;
      FillEntityCodepoints(table);
      r := entityCodepoints;
    }

    /** The `foreach` of `getEntityCodepoints`, filling the empty array entry by entry. */
    method FillEntityCodepoints(table: Table)
      requires entityCodepoints == []
      modifies this`entityCodepoints
      ensures entityCodepoints == EntityCodepointsOf(table)
    {
      for i := 0 to |table|
        invariant entityCodepoints == EntityCodepointsOf(table[..i])
      {
        DerivedSnoc(table, i);
        AddEntityCodepoint(table[i].1);
      }
      assert table[..|table|] == table;
    }

    /** The body of the `foreach` in `getEntityCodepoints`: one entry's codepoints stored under its entity run. */
    method AddEntityCodepoint(hexcode: string)
      modifies this`entityCodepoints
      ensures entityCodepoints == Put(old(entityCodepoints), EntityKey(hexcode), Codepoints(hexcode))
    {
      var parts := Explode('-', hexcode);
      var entity, codepoint := EntityValues(parts);
      PartsCodepoints(hexcode, codepoint);
      entityCodepoints := Put(entityCodepoints, entity, codepoint);
    }

    /** `getShortcodeEntities`: `:name:` => entity run, each run grown part by part, built once. */
    method GetShortcodeEntities() returns (r: Assoc<Text, Text>)
      requires Valid()
      modifies this`shortcodes, this`shortcodeEntities, this`entitiesBuiltFor
      ensures Valid()
      ensures r == shortcodeEntities == Cached(old(shortcodeEntities), ShortcodeEntitiesOf(Filter(preset, excludedShortcodes)))
      ensures r == ShortcodeEntitiesOf(Filter(preset, entitiesBuiltFor))
      ensures entitiesBuiltFor == if old(shortcodeEntities) != [] then old(entitiesBuiltFor) else excludedShortcodes
    {
      if shortcodeEntities != [] {
        return shortcodeEntities;
      }
      var table := GetShortcodes();
      entitiesBuiltFor := excludedShortcodes;
      FillShortcodeEntities(table);
      r := shortcodeEntities;
      assert EntitiesValid();
    }

    /**
     * The `foreach` of `getShortcodeEntities`, filling the empty array: each
     * `:name:` is first set to `''`, then `'&#x' . $part . ';'` is appended
     * for each part.
     */
    method FillShortcodeEntities(table: Table)
      requires shortcodeEntities == []
      modifies this`shortcodeEntities
      ensures shortcodeEntities == ShortcodeEntitiesOf(table)
    {
      for i := 0 to |table|
        invariant shortcodeEntities == ShortcodeEntitiesOf(table[..i])
      {
        var (shortcode, hexcode) := table[i];
        var parts := Explode('-', hexcode);
        var key := Matcher.Colon(shortcode);
        ghost var before := shortcodeEntities;
        shortcodeEntities := Put(shortcodeEntities, key, []);
        for k := 0 to |parts|
          invariant shortcodeEntities == Put(before, key, EntityText(parts[..k]))
        {
          assert parts[..k + 1][..k] == parts[..k];
          var current := GetOr(shortcodeEntities, key, []);
          PutTwice(before, key, EntityText(parts[..k]), current + Lit("&#x") + Lit(parts[k]) + Lit(";"));
          shortcodeEntities := Put(shortcodeEntities, key, current + Lit("&#x") + Lit(parts[k]) + Lit(";"));
        }
        assert parts[..|parts|] == parts;
        DerivedSnoc(table, i);
      }
      assert table[..|table|] == table;
    }

    /** `shortcodeToUnicode` */
    method ShortcodeToUnicode(content: Text) returns (r: Text)
      requires Valid()
      modifies this`shortcodes, this`shortcodeCodepoints, this`codepointsBuiltFor
      ensures Valid()
      ensures shortcodeCodepoints == Cached(old(shortcodeCodepoints), ShortcodeCodepointsOf(Filter(preset, old(excludedShortcodes))))
      ensures r == ShortcodeToUnicodeOf(Filter(preset, codepointsBuiltFor), content)
      ensures codepointsBuiltFor == if old(shortcodeCodepoints) != [] then old(codepointsBuiltFor) else excludedShortcodes
    {
      var replacements := GetShortcodeCodepoints();
      r := StrReplace(replacements, content);
    }

    /** `entitiesToUnicode` */
    method EntitiesToUnicode(content: Text) returns (r: Text)
      requires Valid()
      modifies this`shortcodes, this`entityCodepoints, this`entityCodepointsBuiltFor
      ensures Valid()
      ensures entityCodepoints == Cached(old(entityCodepoints), EntityCodepointsOf(Filter(preset, old(excludedShortcodes))))
      ensures r == EntitiesToUnicodeOf(Filter(preset, entityCodepointsBuiltFor), content)
      ensures entityCodepointsBuiltFor == if old(entityCodepoints) != [] then old(entityCodepointsBuiltFor) else excludedShortcodes
    {
      var normalized := Entities.Normalize(content);
      var replacements := GetEntityCodepoints();
      r := StrReplace(replacements, normalized);
    }

    /** `unicodeToShortcode`: always over the current exclusions, since `config` clears `shortcodes`. */
    method UnicodeToShortcode(content: Text) returns (r: Text)
      requires Valid()
      modifies this`shortcodes
      ensures Valid()
      ensures r == UnicodeToShortcodeOf(Filter(preset, excludedShortcodes), pattern, content)
    {
      var table := GetShortcodes();
      var codepoints := Flip(table);
      var parts := Matcher.Split(content, pattern);
      r := Matcher.Reconstruct(codepoints, parts);
    }

    /** `shortcodeToEntities` */
    method ShortcodeToEntities(content: Text) returns (r: Text)
      requires Valid()
      modifies this`shortcodes, this`shortcodeEntities, this`entitiesBuiltFor
      ensures Valid()
      ensures shortcodeEntities == Cached(old(shortcodeEntities), ShortcodeEntitiesOf(Filter(preset, old(excludedShortcodes))))
      ensures r == ShortcodeToEntitiesOf(Filter(preset, entitiesBuiltFor), content)
      ensures entitiesBuiltFor == if old(shortcodeEntities) != [] then old(entitiesBuiltFor) else excludedShortcodes
    {
      var replacements := GetShortcodeEntities();
      r := StrReplace(replacements, content);
    }

    /** `encodeShortcode` */
    method EncodeShortcode(content: Text) returns (r: Text)
      requires Valid()
      modifies this`shortcodes, this`entityCodepoints, this`entityCodepointsBuiltFor
      ensures Valid()
      ensures entityCodepoints == Cached(old(entityCodepoints), EntityCodepointsOf(Filter(preset, old(excludedShortcodes))))
      ensures r == UnicodeToShortcodeOf(Filter(preset, excludedShortcodes), pattern,
                     EntitiesToUnicodeOf(Filter(preset, entityCodepointsBuiltFor), content))
      ensures entityCodepointsBuiltFor == if old(entityCodepoints) != [] then old(entityCodepointsBuiltFor) else excludedShortcodes
    {
      var c := EntitiesToUnicode(content);
      r := UnicodeToShortcode(c);
    }

    /** `encodeHtml` */
    method EncodeHtml(content: Text) returns (r: Text)
      requires Valid()
      modifies this`shortcodes, this`shortcodeEntities, this`entitiesBuiltFor
      ensures Valid()
      ensures shortcodeEntities == Cached(old(shortcodeEntities), ShortcodeEntitiesOf(Filter(preset, old(excludedShortcodes))))
      ensures r == ShortcodeToEntitiesOf(Filter(preset, entitiesBuiltFor),
                     UnicodeToShortcodeOf(Filter(preset, excludedShortcodes), pattern, content))
      ensures entitiesBuiltFor == if old(shortcodeEntities) != [] then old(entitiesBuiltFor) else excludedShortcodes
    {
      var c := UnicodeToShortcode(content);
      r := ShortcodeToEntities(c);
    }

    /** `encodeUnicode` */
    method EncodeUnicode(content: Text) returns (r: Text)
      requires Valid()
      modifies this`shortcodes, this`shortcodeCodepoints, this`codepointsBuiltFor
      modifies this`entityCodepoints, this`entityCodepointsBuiltFor
      ensures Valid()
      ensures shortcodeCodepoints == Cached(old(shortcodeCodepoints), ShortcodeCodepointsOf(Filter(preset, old(excludedShortcodes))))
      ensures entityCodepoints == Cached(old(entityCodepoints), EntityCodepointsOf(Filter(preset, old(excludedShortcodes))))
      ensures r == EntitiesToUnicodeOf(Filter(preset, entityCodepointsBuiltFor),
                     ShortcodeToUnicodeOf(Filter(preset, codepointsBuiltFor), content))
      ensures codepointsBuiltFor == if old(shortcodeCodepoints) != [] then old(codepointsBuiltFor) else excludedShortcodes
      ensures entityCodepointsBuiltFor == if old(entityCodepoints) != [] then old(entityCodepointsBuiltFor) else excludedShortcodes
    {
      var c := ShortcodeToUnicode(content);
      r := EntitiesToUnicode(c);
    }

    /** `removeEmoji` */
    method RemoveEmoji(source: Text) returns (r: Text)
      requires Valid()
      modifies this`shortcodes, this`entityCodepoints, this`entityCodepointsBuiltFor
      ensures Valid()
      ensures entityCodepoints == Cached(old(entityCodepoints), EntityCodepointsOf(Filter(preset, old(excludedShortcodes))))
      ensures r == RemoveTokens(UnicodeToShortcodeOf(Filter(preset, excludedShortcodes), pattern,
                     EntitiesToUnicodeOf(Filter(preset, entityCodepointsBuiltFor), source)))
      ensures entityCodepointsBuiltFor == if old(entityCodepoints) != [] then old(entityCodepointsBuiltFor) else excludedShortcodes
    {
      var content := EncodeShortcode(source);
      r := RemoveTokens(content);
    }

    /**
     * `config`: only `excludeShortcodes` is acted on. It replaces the
     * exclusion list by the string elements of the value (a scalar counts
     * as a one-element list) and clears `shortcodes`, and only that cache.
     */
    method Config(property: string, value: PhpValue)
      requires Valid()
      modifies this`excludedShortcodes, this`shortcodes
      ensures Valid()
      ensures property == "excludeShortcodes" ==> excludedShortcodes == Strings(Elements(value)) && shortcodes == []
      ensures property != "excludeShortcodes" ==> excludedShortcodes == old(excludedShortcodes) && shortcodes == old(shortcodes)
    {
      if property == "excludeShortcodes" {
        excludedShortcodes := CollectStrings(Elements(value));
        shortcodes := [];
      }
    }
  }

  /** The `foreach` of `config` that keeps the string codes, in order. */
  method CollectStrings(items: seq<PhpValue>) returns (codes: seq<string>)
    ensures codes == Strings(items)
  {
    codes := [];
    for i := 0 to |items|
      invariant codes == Strings(items[..i])
    {
      assert items[..i + 1][..i] == items[..i];
      if items[i].Str? {
        codes := codes + [items[i].s];
      }
    }
    assert items[..|items|] == items;
  }

  /**
   * A new engine without exclusions encodes with the whole table, as the
   * module-level conversions describe.
   */
  method NewEngineEncodes(preset: Table, pattern: set<nat>, content: Text) returns (shortcode: Text, html: Text, unicode: Text)
    ensures shortcode == EncodeShortcodeOf(preset, pattern, content)
    ensures html == EncodeHtmlOf(preset, pattern, content)
    ensures unicode == EncodeUnicodeOf(preset, content)
  {
    var e := new LitEmoji(preset, pattern);
    shortcode := EncodeShortcodeWhole(e, content);
    html := EncodeHtmlWhole(e, content);
    unicode := EncodeUnicodeWhole(e, content);
  }

  /** An engine with no exclusions, whose caches (built or not) stand for the whole table. */
  ghost predicate Unexcluded(e: LitEmoji)
    reads e
  {
    e.Valid() && e.excludedShortcodes == [] &&
    e.codepointsBuiltFor == [] && e.entitiesBuiltFor == [] && e.entityCodepointsBuiltFor == []
  }

  method EncodeShortcodeWhole(e: LitEmoji, content: Text) returns (r: Text)
    requires Unexcluded(e)
    modifies e`shortcodes, e`entityCodepoints, e`entityCodepointsBuiltFor
    ensures Unexcluded(e)
    ensures r == EncodeShortcodeOf(e.preset, e.pattern, content)
  {
    FilterNothing(e.preset, []);
    r := e.EncodeShortcode(content);
  }

  method EncodeHtmlWhole(e: LitEmoji, content: Text) returns (r: Text)
    requires Unexcluded(e)
    modifies e`shortcodes, e`shortcodeEntities, e`entitiesBuiltFor
    ensures Unexcluded(e)
    ensures r == EncodeHtmlOf(e.preset, e.pattern, content)
  {
    FilterNothing(e.preset, []);
    r := e.EncodeHtml(content);
  }

  method EncodeUnicodeWhole(e: LitEmoji, content: Text) returns (r: Text)
    requires Unexcluded(e)
    modifies e`shortcodes, e`shortcodeCodepoints, e`codepointsBuiltFor
    modifies e`entityCodepoints, e`entityCodepointsBuiltFor
    ensures Unexcluded(e)
    ensures r == EncodeUnicodeOf(e.preset, content)
  {
    FilterNothing(e.preset, []);
    r := e.EncodeUnicode(content);
  }

  /**
   * The stale caches: once `shortcodeToUnicode` has built its array,
   * excluding a name changes nothing there.
   */
  method ExclusionAfterUse(preset: Table, pattern: set<nat>, name: string, content: Text)
    returns (before: Text, after: Text)
    requires |preset| > 0
    ensures before == after
  {
    var e := new LitEmoji(preset, pattern);
    FilterNothing(preset, []);
    before := e.ShortcodeToUnicode(content);
    DerivedNonEmpty(preset);
    assert e.shortcodeCodepoints != [] && e.codepointsBuiltFor == [];
    e.Config("excludeShortcodes", Str(name));
    after := e.ShortcodeToUnicode(content);
  }

  /** `unicodeToShortcode`, unlike the other conversions, honours an exclusion made at any time. */
  method ExcludeThenReverse(e: LitEmoji, name: string, emoji: Text) returns (reverse: Text)
    requires e.Valid()
    modifies e
    ensures reverse == UnicodeToShortcodeOf(Filter(e.preset, [name]), e.pattern, emoji)
  {
    assert Strings(Elements(Str(name))) == [name] by {
      assert [Str(name)][..0] == [];
    }
    e.Config("excludeShortcodes", Str(name));
    reverse := e.UnicodeToShortcode(emoji);
  }
}
