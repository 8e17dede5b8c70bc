/**
 * The shortcode-table generator: for one preset it merges the preset's
 * shortcodes into the existing table without adding a name whose
 * normalised form is already taken, orders the table by hexcode length,
 * longest first, and writes it out as a PHP array literal.
 */
module ShortcodeGen {
  import opened PhpArray
  import opened PhpString
  import Tables

  /** `normalizeShortcode` on one character: lower case, and `_` for `-`. */
  function NormalizeChar(c: char): char
  {
    if LowerChar(c) == '-' then '_' else LowerChar(c)
  }

  /** `str_replace` of a single character by a single character works character by character. */
  lemma {:induction false} ReplaceChar(s: string, a: char, b: char)
    ensures |ReplaceAll(s, [a], [b])| == |s|
    ensures forall i :: 0 <= i < |s| ==> ReplaceAll(s, [a], [b])[i] == if s[i] == a then b else s[i]
    decreases |s|
  {
    if |s| > 0 {
      ReplaceChar(s[1..], a, b);
      var r := ReplaceAll(s, [a], [b]);
      var tail := ReplaceAll(s[1..], [a], [b]);
      if [a] <= s {
        assert s[|[a]|..] == s[1..];
        assert r == [b] + tail;
      } else {
        assert r == [s[0]] + tail;
      }
      forall i | 0 <= i < |s|
        ensures r[i] == if s[i] == a then b else s[i]
      {
        if i > 0 {
          assert r[i] == tail[i - 1] && s[i] == s[1..][i - 1];
        }
      }
    }
  }

  /**
   * `normalizeShortcode`: `str_replace('-', '_', strtolower($shortcode))`.
   * The result has the same length, no `-` and no upper-case letter, and
   * every other character is left as it was.
   */
  function Normalize(shortcode: string): (r: string)
    ensures |r| == |shortcode|
    ensures forall i :: 0 <= i < |r| ==> r[i] != '-' && !('A' <= r[i] <= 'Z')
    ensures forall i :: 0 <= i < |r| && shortcode[i] != '-' && !('A' <= shortcode[i] <= 'Z') ==> r[i] == shortcode[i]
    ensures forall i :: 0 <= i < |r| && shortcode[i] == '-' ==> r[i] == '_'
  {
    var lower := Lower(shortcode);
    ReplaceChar(lower, '-', '_');
    ReplaceAll(lower, "-", "_")
  }

  /** Normalising twice is normalising once. */
  lemma NormalizeIdempotent(shortcode: string)
    ensures Normalize(Normalize(shortcode)) == Normalize(shortcode)
  {
    var once := Normalize(shortcode);
    var twice := Normalize(once);
    forall i | 0 <= i < |once|
      ensures twice[i] == once[i]
    {
    }
  }

  /** Names that differ only in case or in `-` against `_` normalise alike. */
  lemma NormalizeMerges(a: string, b: string)
    requires |a| == |b|
    requires forall i :: 0 <= i < |a| ==> NormalizeChar(a[i]) == NormalizeChar(b[i])
    ensures Normalize(a) == Normalize(b)
  {
    var na, nb := Normalize(a), Normalize(b);
    forall i | 0 <= i < |a|
      ensures na[i] == nb[i]
    {
      assert na[i] == NormalizeChar(a[i]) by {
        if a[i] == '-' {
        } else if 'A' <= a[i] <= 'Z' {
          var lower := Lower(a);
          ReplaceChar(lower, '-', '_');
        }
      }
      assert nb[i] == NormalizeChar(b[i]) by {
        if b[i] == '-' {
        } else if 'A' <= b[i] <= 'Z' {
          var lower := Lower(b);
          ReplaceChar(lower, '-', '_');
        }
      }
    }
  }

  /** An entry of the emoji data file: its hexcode, and whether it has a `group` key. */
  datatype Emoji = Emoji(hexcode: string, hasGroup: bool)

  /** A preset's value for a hexcode: a single shortcode, or a list of them. */
  datatype ShortcodeValue = One(name: string) | Many(names: seq<string>)

  /** The preset's shortcodes: hexcode => shortcode or shortcodes. */
  type Shortcodes = Assoc<string, ShortcodeValue>

  /** A single shortcode is read as a list of one. */
  function Names(v: ShortcodeValue): (names: seq<string>)
    ensures v.One? ==> names == [v.name]
    ensures v.Many? ==> names == v.names
  {
    match v
    case One(name) => [name]
    case Many(names) => names
  }

  /** The shortcodes the preset lists for `hexcode`; none when it lists none. */
  function NamesOf(shortcodes: Shortcodes, hexcode: string): seq<string>
  {
    match Get(shortcodes, hexcode)
    case Some(v) => Names(v)
    case None => []
  }

  /** An emoji is merged when the preset has shortcodes for it and it belongs to a group. */
  predicate Accepted(shortcodes: Shortcodes, e: Emoji)
  {
    HasKey(shortcodes, e.hexcode) && e.hasGroup
  }

  /** `array_map('normalizeShortcode', array_keys($emojiList))` */
  function Existing(emojiList: Tables.Table): (existing: seq<string>)
    ensures |existing| == |emojiList|
    ensures forall i :: 0 <= i < |emojiList| ==> existing[i] == Normalize(emojiList[i].0)
  {
    seq(|emojiList|, i requires 0 <= i < |emojiList| => Normalize(emojiList[i].0))
  }

  /** The inner loop: each of `names` in turn is assigned `hexcode` unless its normalised form is taken. */
  function AddNames(list: Tables.Table, existing: seq<string>, names: seq<string>, hexcode: string): Tables.Table
    decreases |names|
  {
    if |names| == 0 then list
    else
      var n := |names| - 1;
      var before := AddNames(list, existing, names[..n], hexcode);
      if Normalize(names[n]) in existing then before else Put(before, names[n], hexcode)
  }

  /** The outer loop over the emoji data, in file order. */
  function Merge(list: Tables.Table, existing: seq<string>, data: seq<Emoji>, shortcodes: Shortcodes): Tables.Table
    decreases |data|
  {
    if |data| == 0 then list
    else
      var n := |data| - 1;
      var before := Merge(list, existing, data[..n], shortcodes);
      if Accepted(shortcodes, data[n]) then AddNames(before, existing, NamesOf(shortcodes, data[n].hexcode), data[n].hexcode)
      else before
  }

  /** The merge loop of one preset: existing table in, merged table out. */
  method MergePreset(data: seq<Emoji>, shortcodes: Shortcodes, emojiList: Tables.Table) returns (merged: Tables.Table)
    ensures merged == Merge(emojiList, Existing(emojiList), data, shortcodes)
  {
    var existing := Existing(emojiList);
    merged := emojiList;
    for i := 0 to |data|
      invariant merged == Merge(emojiList, existing, data[..i], shortcodes)
    {
      var emoji := data[i];
      assert data[..i + 1][..i] == data[..i];
      if !HasKey(shortcodes, emoji.hexcode) || !emoji.hasGroup {
        continue;
      }
      var names := NamesOf(shortcodes, emoji.hexcode);
      ghost var before := merged;
      for j := 0 to |names|
        invariant merged == AddNames(before, existing, names[..j], emoji.hexcode)
      {
        assert names[..j + 1][..j] == names[..j];
        if Normalize(names[j]) in existing {
          continue;
        }
        merged := Put(merged, names[j], emoji.hexcode);
      }
      assert names[..|names|] == names;
    }
    assert data[..|data|] == data;
  }

  /**
   * What the merge keeps: the existing entries stay, in place and with their
   * values, and every entry after them has a name whose normalised form
   * none of the existing names has.
   */
  predicate Extends(list: Tables.Table, existing: seq<string>, r: Tables.Table)
  {
    |r| >= |list| && r[..|list|] == list
    && forall i :: |list| <= i < |r| ==> Normalize(r[i].0) !in existing
  }

  lemma PutExtends(list: Tables.Table, r: Tables.Table, name: string, hexcode: string)
    requires Extends(list, Existing(list), r) && Normalize(name) !in Existing(list)
    ensures Extends(list, Existing(list), Put(r, name, hexcode))
  {
    var existing := Existing(list);
    var r' := Put(r, name, hexcode);
    forall i | 0 <= i < |list|
      ensures r'[i] == list[i]
    {
      assert r[i] == list[i];
      assert Normalize(r[i].0) in existing by {
        assert existing[i] == Normalize(list[i].0);
      }
    }
    assert r'[..|list|] == list;
  }

  lemma {:induction false} AddNamesExtends(list: Tables.Table, r: Tables.Table, names: seq<string>, hexcode: string)
    requires Extends(list, Existing(list), r)
    ensures Extends(list, Existing(list), AddNames(r, Existing(list), names, hexcode))
    decreases |names|
  {
    if |names| > 0 {
      var n := |names| - 1;
      AddNamesExtends(list, r, names[..n], hexcode);
      if Normalize(names[n]) !in Existing(list) {
        PutExtends(list, AddNames(r, Existing(list), names[..n], hexcode), names[n], hexcode);
      }
    }
  }

  /**
   * The merge never touches an existing entry and never adds a name whose
   * normalised form an existing name has.
   */
  lemma {:induction false} MergeExtends(list: Tables.Table, data: seq<Emoji>, shortcodes: Shortcodes)
    ensures Extends(list, Existing(list), Merge(list, Existing(list), data, shortcodes))
    decreases |data|
  {
    if |data| == 0 {
      assert list[..|list|] == list;
    } else {
      var n := |data| - 1;
      MergeExtends(list, data[..n], shortcodes);
      if Accepted(shortcodes, data[n]) {
        AddNamesExtends(list, Merge(list, Existing(list), data[..n], shortcodes), NamesOf(shortcodes, data[n].hexcode), data[n].hexcode);
      }
    }
  }

  /** The merge keeps the names distinct. */
  lemma {:induction false} MergeDistinct(list: Tables.Table, existing: seq<string>, data: seq<Emoji>, shortcodes: Shortcodes)
    requires DistinctKeys(list)
    ensures DistinctKeys(Merge(list, existing, data, shortcodes))
    decreases |data|
  {
    if |data| > 0 {
      var n := |data| - 1;
      MergeDistinct(list, existing, data[..n], shortcodes);
      if Accepted(shortcodes, data[n]) {
        AddNamesDistinct(Merge(list, existing, data[..n], shortcodes), existing, NamesOf(shortcodes, data[n].hexcode), data[n].hexcode);
      }
    }
  }

  lemma {:induction false} AddNamesDistinct(list: Tables.Table, existing: seq<string>, names: seq<string>, hexcode: string)
    requires DistinctKeys(list)
    ensures DistinctKeys(AddNames(list, existing, names, hexcode))
    decreases |names|
  {
    if |names| > 0 {
      var n := |names| - 1;
      AddNamesDistinct(list, existing, names[..n], hexcode);
      PutDistinct(AddNames(list, existing, names[..n], hexcode), names[n], hexcode);
    }
  }

  /** A name listed for the hexcode and not taken ends up mapped to that hexcode. */
  lemma {:induction false} AddNamesHit(list: Tables.Table, existing: seq<string>, names: seq<string>, hexcode: string, name: string)
    requires name in names && Normalize(name) !in existing
    ensures Get(AddNames(list, existing, names, hexcode), name) == Some(hexcode)
    decreases |names|
  {
    var n := |names| - 1;
    var before := AddNames(list, existing, names[..n], hexcode);
    if names[n] != name {
      assert name in names[..n];
      AddNamesHit(list, existing, names[..n], hexcode, name);
      if Normalize(names[n]) !in existing {
        PutOther(before, names[n], hexcode, name);
      }
    }
  }

  /** A name the list does not hold keeps its value. */
  lemma {:induction false} AddNamesMiss(list: Tables.Table, existing: seq<string>, names: seq<string>, hexcode: string, name: string)
    requires name !in names
    ensures Get(AddNames(list, existing, names, hexcode), name) == Get(list, name)
    decreases |names|
  {
    if |names| > 0 {
      var n := |names| - 1;
      AddNamesMiss(list, existing, names[..n], hexcode, name);
      if Normalize(names[n]) !in existing {
        PutOther(AddNames(list, existing, names[..n], hexcode), names[n], hexcode, name);
      }
    }
  }

  /** The emoji at `k` is merged and lists `name`. */
  predicate Offers(shortcodes: Shortcodes, data: seq<Emoji>, k: nat, name: string)
    requires k < |data|
  {
    Accepted(shortcodes, data[k]) && name in NamesOf(shortcodes, data[k].hexcode)
  }

  /**
   * The last assignment wins: a name not already taken is mapped to the
   * hexcode of the last merged emoji that lists it.
   */
  lemma {:induction false} MergeLastWins(list: Tables.Table, existing: seq<string>, data: seq<Emoji>, shortcodes: Shortcodes, k: nat, name: string)
    requires k < |data| && Offers(shortcodes, data, k, name) && Normalize(name) !in existing
    requires forall m :: k < m < |data| ==> !Offers(shortcodes, data, m, name)
    ensures Get(Merge(list, existing, data, shortcodes), name) == Some(data[k].hexcode)
    decreases |data|
  {
    var n := |data| - 1;
    if k == n {
      MergeHit(list, existing, data, shortcodes, name);
    } else {
      LastOfferPrefix(shortcodes, data, n, k, name);
      MergeLastWins(list, existing, data[..n], shortcodes, k, name);
      MergeMiss(list, existing, data, shortcodes, name);
    }
  }

  /** The last emoji merged, when it offers a name not already taken, gets that name. */
  lemma MergeHit(list: Tables.Table, existing: seq<string>, data: seq<Emoji>, shortcodes: Shortcodes, name: string)
    requires |data| > 0 && Offers(shortcodes, data, |data| - 1, name) && Normalize(name) !in existing
    ensures Get(Merge(list, existing, data, shortcodes), name) == Some(data[|data| - 1].hexcode)
  {
    var n := |data| - 1;
    MergeStep(list, existing, data, shortcodes);
    AddNamesHit(Merge(list, existing, data[..n], shortcodes), existing, NamesOf(shortcodes, data[n].hexcode), data[n].hexcode, name);
  }

  /** The last emoji merged, when it does not offer a name, leaves that name as it was. */
  lemma MergeMiss(list: Tables.Table, existing: seq<string>, data: seq<Emoji>, shortcodes: Shortcodes, name: string)
    requires |data| > 0 && !Offers(shortcodes, data, |data| - 1, name)
    ensures Get(Merge(list, existing, data, shortcodes), name) == Get(Merge(list, existing, data[..|data| - 1], shortcodes), name)
  {
    var n := |data| - 1;
    MergeStep(list, existing, data, shortcodes);
    if Accepted(shortcodes, data[n]) {
      AddNamesMiss(Merge(list, existing, data[..n], shortcodes), existing, NamesOf(shortcodes, data[n].hexcode), data[n].hexcode, name);
    }
  }

  /** One more emoji: its names are added when it is accepted. */
  lemma MergeStep(list: Tables.Table, existing: seq<string>, data: seq<Emoji>, shortcodes: Shortcodes)
    requires |data| > 0
    ensures var n := |data| - 1; var before := Merge(list, existing, data[..n], shortcodes);
      Merge(list, existing, data, shortcodes) ==
        if Accepted(shortcodes, data[n]) then AddNames(before, existing, NamesOf(shortcodes, data[n].hexcode), data[n].hexcode)
        else before
  {
  }

  /** A prefix of the data offers a name where the data does. */
  lemma OffersPrefix(shortcodes: Shortcodes, data: seq<Emoji>, n: nat, k: nat, name: string)
    requires n <= |data|
    ensures forall m :: k <= m < n ==> (Offers(shortcodes, data[..n], m, name) <==> Offers(shortcodes, data, m, name))
  {
    forall m | k <= m < n
      ensures Offers(shortcodes, data[..n], m, name) <==> Offers(shortcodes, data, m, name)
    {
      assert data[..n][m] == data[m];
    }
  }

  /** The last offer of a name in the data is still the last one in a prefix that holds it. */
  lemma LastOfferPrefix(shortcodes: Shortcodes, data: seq<Emoji>, n: nat, k: nat, name: string)
    requires k < n <= |data| && Offers(shortcodes, data, k, name)
    requires forall m :: k < m < |data| ==> !Offers(shortcodes, data, m, name)
    ensures Offers(shortcodes, data[..n], k, name)
    ensures forall m :: k < m < n ==> !Offers(shortcodes, data[..n], m, name)
  {
    assert data[..n][k] == data[k];
    forall m | k < m < n
      ensures !Offers(shortcodes, data[..n], m, name)
    {
      assert data[..n][m] == data[m];
      assert !Offers(shortcodes, data, m, name);
    }
  }

  /** A name no merged emoji lists keeps the value it had. */
  lemma {:induction false} MergeUnoffered(list: Tables.Table, existing: seq<string>, data: seq<Emoji>, shortcodes: Shortcodes, name: string)
    requires forall m :: 0 <= m < |data| ==> !Offers(shortcodes, data, m, name)
    ensures Get(Merge(list, existing, data, shortcodes), name) == Get(list, name)
    decreases |data|
  {
    if |data| > 0 {
      var n := |data| - 1;
      var prefix := data[..n];
      OffersPrefix(shortcodes, data, n, 0, name);
      MergeUnoffered(list, existing, prefix, shortcodes, name);
      assert !Offers(shortcodes, data, n, name);
      if Accepted(shortcodes, data[n]) {
        AddNamesMiss(Merge(list, existing, prefix, shortcodes), existing, NamesOf(shortcodes, data[n].hexcode), data[n].hexcode, name);
      }
    }
  }

  /** The entries whose hexcode is `w` characters long, in their order. */
  function OfLength(t: Tables.Table, w: nat): (r: Tables.Table)
    ensures forall e :: e in r <==> e in t && |e.1| == w
    decreases |t|
  {
    if |t| == 0 then []
    else (if |t[0].1| == w then [t[0]] else []) + OfLength(t[1..], w)
  }

  lemma {:induction false} OfLengthAppend(a: Tables.Table, b: Tables.Table, w: nat)
    ensures OfLength(a + b, w) == OfLength(a, w) + OfLength(b, w)
    decreases |a|
  {
    if |a| == 0 {
      assert a + b == b;
    } else {
      assert (a + b)[1..] == a[1..] + b;
      OfLengthAppend(a[1..], b, w);
    }
  }

  /** Puts `e` before the first entry whose hexcode is not longer than its own. */
  function Place(e: (string, string), t: Tables.Table): (r: Tables.Table)
    decreases |t|
  {
    if |t| == 0 || |t[0].1| <= |e.1| then [e] + t
    else [t[0]] + Place(e, t[1..])
  }

  lemma {:induction false} PlaceOrdered(e: (string, string), t: Tables.Table)
    requires Tables.LongestFirst(t)
    ensures Tables.LongestFirst(Place(e, t))
    ensures multiset(Place(e, t)) == multiset(t) + multiset{e}
    decreases |t|
  {
    if |t| == 0 || |t[0].1| <= |e.1| {
      var r := [e] + t;
      forall i, j | 0 <= i < j < |r|
        ensures |r[i].1| >= |r[j].1|
      {
        assert r[j] == t[j - 1];
        if i > 0 {
          assert r[i] == t[i - 1];
        } else {
          assert |t[0].1| >= |t[j - 1].1|;
        }
      }
    } else {
      var rest := Place(e, t[1..]);
      PlaceOrdered(e, t[1..]);
      assert t == [t[0]] + t[1..];
      PlaceHead(t[0], rest, t[1..], e);
    }
  }

  /** The step of `PlaceOrdered` where the entry goes past the head. */
  lemma PlaceHead(h: (string, string), rest: Tables.Table, tail: Tables.Table, e: (string, string))
    requires Tables.LongestFirst(rest) && Tables.LongestFirst([h] + tail) && |h.1| > |e.1|
    requires multiset(rest) == multiset(tail) + multiset{e}
    ensures Tables.LongestFirst([h] + rest)
  {
    var r := [h] + rest;
    forall i, j | 0 <= i < j < |r|
      ensures |r[i].1| >= |r[j].1|
    {
      assert r[j] == rest[j - 1];
      if i > 0 {
        assert r[i] == rest[i - 1];
      } else {
        assert r[j] in multiset(rest);
        if r[j] != e {
          assert r[j] in multiset(tail);
          var m :| 0 <= m < |tail| && tail[m] == r[j];
          var ht := [h] + tail;
          assert ht[0] == h && ht[m + 1] == r[j];
          assert |ht[0].1| >= |ht[m + 1].1|;
        }
        assert r[i] == h;
      }
    }
  }

  /** Placing an entry adds it to the front of its own length's entries and leaves the others. */
  lemma {:induction false} PlaceLength(e: (string, string), t: Tables.Table, w: nat)
    ensures OfLength(Place(e, t), w) == (if |e.1| == w then [e] else []) + OfLength(t, w)
    decreases |t|
  {
    var mine := if |e.1| == w then [e] else [];
    if |t| == 0 || |t[0].1| <= |e.1| {
      var r := [e] + t;
      assert r[0] == e && r[1..] == t;
      assert OfLength(r, w) == mine + OfLength(t, w);
    } else {
      var rest := Place(e, t[1..]);
      PlaceLength(e, t[1..], w);
      var r := [t[0]] + rest;
      assert r[0] == t[0] && r[1..] == rest;
      var head := if |t[0].1| == w then [t[0]] else [];
      assert OfLength(r, w) == head + OfLength(rest, w);
      assert OfLength(t, w) == head + OfLength(t[1..], w);
      assert head == [] || mine == [];
    }
  }

  /** The step of `SortByLength`: placing the head into the sorted tail sorts the whole. */
  lemma PlaceSorted(h: (string, string), tail: Tables.Table, rest: Tables.Table)
    requires Tables.LongestFirst(rest) && multiset(rest) == multiset(tail)
    requires forall w :: OfLength(rest, w) == OfLength(tail, w)
    ensures Tables.LongestFirst(Place(h, rest))
    ensures multiset(Place(h, rest)) == multiset([h] + tail)
    ensures forall w :: OfLength(Place(h, rest), w) == OfLength([h] + tail, w)
  {
    PlaceOrdered(h, rest);
    forall w
      ensures OfLength(Place(h, rest), w) == OfLength([h] + tail, w)
    {
      PlaceLength(h, rest, w);
      var t := [h] + tail;
      assert t[0] == h && t[1..] == tail;
    }
  }

  /**
   * `uasort($emojiList, fn($a, $b) => strlen($b) <=> strlen($a))`: the entries
   * ordered by hexcode length, longest first, equal lengths keeping their
   * order (PHP's sort is stable).
   */
  function SortByLength(t: Tables.Table): (r: Tables.Table)
    ensures Tables.LongestFirst(r)
    ensures multiset(r) == multiset(t)
    ensures forall w :: OfLength(r, w) == OfLength(t, w)
    decreases |t|
  {
    if |t| == 0 then []
    else
      var rest := SortByLength(t[1..]);
      PlaceSorted(t[0], t[1..], rest);
      assert t == [t[0]] + t[1..];
      Place(t[0], rest)
  }

  /** One line of the output array: `sprintf("'%s'=>'%s'", $shortcode, $codepoints)`. */
  function Entry(e: (string, string)): string
  {
    "'" + e.0 + "'=>'" + e.1 + "'"
  }

  /** The generated file: `sprintf('<?php return [%s];', implode(',', $output))`. */
  function FileText(output: seq<string>): string
  {
    "<?php return [" + Join(",", output) + "];"
  }

  /** The serialising loop: one entry per pair, in table order. */
  method Serialise(emojiList: Tables.Table) returns (file: string)
    ensures file == FileText(seq(|emojiList|, i requires 0 <= i < |emojiList| => Entry(emojiList[i])))
  {
    var output: seq<string> := [];
    for i := 0 to |emojiList|
      invariant output == seq(i, k requires 0 <= k < i => Entry(emojiList[k]))
    {
      output := output + [Entry(emojiList[i])];
    }
    file := FileText(output);
  }

  /** Neither the name nor the hexcode holds a quote or a comma, so the literal can be read back. */
  predicate Plain(t: Tables.Table)
  {
    forall i :: 0 <= i < |t| ==> '\'' !in t[i].0 && ',' !in t[i].0 && '\'' !in t[i].1 && ',' !in t[i].1
  }

  /** Reads one `'name'=>'hexcode'` entry. */
  function ReadEntry(s: string): Option<(string, string)>
  {
    var p := Explode('\'', s);
    if |p| == 5 && p[0] == "" && p[2] == "=>" && p[4] == "" then Some((p[1], p[3])) else None
  }

  /** Reads the entries of an array literal's body, in order. */
  function ReadEntries(parts: seq<string>): Option<Tables.Table>
    decreases |parts|
  {
    if |parts| == 0 then Some([])
    else match (ReadEntry(parts[0]), ReadEntries(parts[1..]))
      case (Some(e), Some(rest)) => Some([e] + rest)
      case _ => None
  }

  /** Reads a generated file back into its table. */
  function ReadFile(file: string): Option<Tables.Table>
  {
    var head := "<?php return [";
    if |file| < |head| + 2 || file[..|head|] != head || file[|file| - 2..] != "];" then None
    else
      var body := file[|head|..|file| - 2];
      if body == "" then Some([]) else ReadEntries(Explode(',', body))
  }

  lemma EntryReads(e: (string, string))
    requires '\'' !in e.0 && '\'' !in e.1
    ensures ReadEntry(Entry(e)) == Some(e)
  {
    var parts := ["", e.0, "=>", e.1, ""];
    assert Join("'", parts) == Entry(e) by {
      assert Join("'", parts[4..]) == "";
      assert Join("'", parts[3..]) == e.1 + "'" + "";
      assert Join("'", parts[2..]) == "=>" + "'" + e.1 + "'";
      assert Join("'", parts[1..]) == e.0 + "'" + "=>" + "'" + e.1 + "'";
    }
    forall i | 0 <= i < |parts|
      ensures '\'' !in parts[i]
    {
    }
    ExplodeJoin('\'', parts);
  }

  lemma {:induction false} EntriesRead(t: Tables.Table)
    requires Plain(t)
    ensures ReadEntries(seq(|t|, i requires 0 <= i < |t| => Entry(t[i]))) == Some(t)
    decreases |t|
  {
    var output := seq(|t|, i requires 0 <= i < |t| => Entry(t[i]));
    if |t| > 0 {
      EntryReads(t[0]);
      assert Plain(t[1..]) by {
        forall i | 0 <= i < |t[1..]|
          ensures '\'' !in t[1..][i].0 && ',' !in t[1..][i].0 && '\'' !in t[1..][i].1 && ',' !in t[1..][i].1
        {
          assert t[1..][i] == t[i + 1];
        }
      }
      EntriesRead(t[1..]);
      assert output[1..] == seq(|t[1..]|, i requires 0 <= i < |t[1..]| => Entry(t[1..][i]));
      assert t == [t[0]] + t[1..];
    }
  }

  /** The written file reads back as the table it was written from. */
  lemma FileReads(t: Tables.Table)
    requires Plain(t)
    ensures ReadFile(FileText(seq(|t|, i requires 0 <= i < |t| => Entry(t[i])))) == Some(t)
  {
    var output := seq(|t|, i requires 0 <= i < |t| => Entry(t[i]));
    var file := FileText(output);
    var head := "<?php return [";
    var body := Join(",", output);
    assert file[..|head|] == head && file[|file| - 2..] == "];";
    assert file[|head|..|file| - 2] == body;
    if |t| == 0 {
    } else {
      assert |Entry(t[0])| > 0;
      assert |body| > 0 by {
        if |t| > 1 {
          assert body == output[0] + "," + Join(",", output[1..]);
        }
      }
      forall i | 0 <= i < |output|
        ensures ',' !in output[i]
      {
        assert output[i] == "'" + t[i].0 + "'=>'" + t[i].1 + "'";
      }
      ExplodeJoin(',', output);
      EntriesRead(t);
    }
  }

  /**
   * One preset: merge, order longest hexcode first, and serialise. The
   * generated file holds the merged pairs, longest hexcode first.
   */
  method GeneratePreset(data: seq<Emoji>, shortcodes: Shortcodes, emojiList: Tables.Table) returns (file: string, ghost table: Tables.Table)
    ensures table == SortByLength(Merge(emojiList, Existing(emojiList), data, shortcodes))
    ensures Tables.LongestFirst(table)
    ensures multiset(table) == multiset(Merge(emojiList, Existing(emojiList), data, shortcodes))
    ensures Plain(table) ==> ReadFile(file) == Some(table)
  {
    var merged := MergePreset(data, shortcodes, emojiList);
    var sorted := SortByLength(merged);
    table := sorted;
    file := Serialise(sorted);
    if Plain(sorted) {
      FileReads(sorted);
    }
  }
}
