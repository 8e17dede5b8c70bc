/**
 * The reconstruction loop of `unicodeToShortcode`: the content is split
 * into single emoji codepoints and the plain runs between them, and the
 * emoji codepoints are turned back into `:name:` shortcodes by looking
 * them up, one at a time and as the run collected so far, in the flipped
 * shortcode table.
 *
 * The lookup is the one the code performs, not a longest match: a
 * codepoint that has a name of its own is emitted at once (and empties the
 * pending run), a longer sequence is only found when each of its prefixes
 * misses, a codepoint that never completes a known sequence is dropped,
 * and plain text does not interrupt the pending run.
 */
module Matcher {
  import opened PhpArray
  import opened PhpString
  import Hex

  /** One piece of the split content: an emoji codepoint or a plain run between them. */
  datatype Part = Emoji(cp: nat) | Plain(text: Text)

  /** A piece of the rebuilt content. */
  datatype Token = Literal(text: Text) | Shortcode(name: string)

  /** The rebuilt content so far and the pending codepoint run (`$sequence`). */
  datatype State = State(tokens: seq<Token>, pending: seq<nat>)

  /** The flipped table: a hexcode `HEX-HEX-...` to the shortcode name it is looked up under. */
  type Index = Assoc<string, string>

  /** Looking a codepoint sequence up under its `%X` key. */
  function Lookup(index: Index, cps: seq<nat>): Option<string>
  {
    Get(index, Hex.HexKey(cps))
  }

  /** The text a part stands for. */
  function PartText(p: Part): Text
  {
    match p
    case Emoji(c) => [c]
    case Plain(t) => t
  }

  /** The concatenation of the parts. */
  function Concat(parts: seq<Part>): Text
    decreases |parts|
  {
    if |parts| == 0 then [] else PartText(parts[0]) + Concat(parts[1..])
  }

  predicate NoneIn(t: Text, pattern: set<nat>)
  {
    forall i :: 0 <= i < |t| ==> t[i] !in pattern
  }

  /** An emoji part holds a codepoint the pattern matches; a plain part is non-empty and holds none. */
  predicate WellFormed(p: Part, pattern: set<nat>)
  {
    match p
    case Emoji(c) => c in pattern
    case Plain(t) => |t| > 0 && NoneIn(t, pattern)
  }

  /**
   * `preg_split($regex, $content, -1, PREG_SPLIT_DELIM_CAPTURE | PREG_SPLIT_NO_EMPTY)`
   * for a pattern that matches exactly the single codepoints in `pattern`.
   */
  function Split(t: Text, pattern: set<nat>): seq<Part>
    decreases |t|
  {
    if |t| == 0 then []
    else if t[0] in pattern then [Emoji(t[0])] + Split(t[1..], pattern)
    else
      var rest := Split(t[1..], pattern);
      if |rest| > 0 && rest[0].Plain? then [Plain([t[0]] + rest[0].text)] + rest[1..]
      else [Plain([t[0]])] + rest
  }

  /** What the split is: the parts spell the content, and the pieces are maximal. */
  predicate Splits(t: Text, pattern: set<nat>, parts: seq<Part>)
  {
    Concat(parts) == t &&
    (forall i :: 0 <= i < |parts| ==> WellFormed(parts[i], pattern)) &&
    (forall i :: 0 <= i < |parts| - 1 ==> !(parts[i].Plain? && parts[i + 1].Plain?)) &&
    (|t| > 0 ==> |parts| > 0 && (parts[0].Emoji? <==> t[0] in pattern))
  }

  /**
   * The parts concatenate back to the content; each emoji part is one
   * codepoint of the pattern; plain parts are non-empty, hold no pattern
   * codepoint and never follow one another.
   */
  lemma {:induction false} SplitFacts(t: Text, pattern: set<nat>)
    ensures Splits(t, pattern, Split(t, pattern))
    decreases |t|
  {
    if |t| > 0 {
      SplitFacts(t[1..], pattern);
      SplitStep(t, pattern, Split(t[1..], pattern));
    }
  }

  /** One codepoint more in front keeps the split well formed. */
  lemma SplitStep(t: Text, pattern: set<nat>, rest: seq<Part>)
    requires |t| > 0 && rest == Split(t[1..], pattern) && Splits(t[1..], pattern, rest)
    ensures Splits(t, pattern, Split(t, pattern))
  {
    assert t == [t[0]] + t[1..];
    if t[0] in pattern {
      assert Split(t, pattern) == [Emoji(t[0])] + rest;
      ConsPart(t[0], t[1..], pattern, Emoji(t[0]), rest);
    } else if |rest| > 0 && rest[0].Plain? {
      assert Split(t, pattern) == [Plain([t[0]] + rest[0].text)] + rest[1..];
      MergePlain(t[0], t[1..], pattern, rest);
    } else {
      assert Split(t, pattern) == [Plain([t[0]])] + rest;
      ConsPart(t[0], t[1..], pattern, Plain([t[0]]), rest);
    }
  }

  /** A part for `c` in front of the split of `u`, when it does not join a plain part. */
  lemma ConsPart(c: nat, u: Text, pattern: set<nat>, p: Part, rest: seq<Part>)
    requires Splits(u, pattern, rest) && PartText(p) == [c] && WellFormed(p, pattern)
    requires p.Emoji? <==> c in pattern
    requires p.Plain? ==> |rest| == 0 || rest[0].Emoji?
    ensures Splits([c] + u, pattern, [p] + rest)
  {
    var r := [p] + rest;
    assert r[1..] == rest;
    forall i | 0 <= i < |r|
      ensures WellFormed(r[i], pattern)
    {
      if i > 0 {
        assert r[i] == rest[i - 1];
      }
    }
  }

  /** `c` outside the pattern joins the plain part the split of `u` starts with. */
  lemma MergePlain(c: nat, u: Text, pattern: set<nat>, rest: seq<Part>)
    requires Splits(u, pattern, rest) && c !in pattern && |rest| > 0 && rest[0].Plain?
    ensures Splits([c] + u, pattern, [Plain([c] + rest[0].text)] + rest[1..])
  {
    var r := [Plain([c] + rest[0].text)] + rest[1..];
    assert r[1..] == rest[1..];
    assert Concat(rest) == rest[0].text + Concat(rest[1..]);
    assert WellFormed(rest[0], pattern);
    forall i | 0 <= i < |r|
      ensures WellFormed(r[i], pattern)
    {
      if i > 0 {
        assert r[i] == rest[i];
      }
    }
    forall i | 0 <= i < |r| - 1
      ensures !(r[i].Plain? && r[i + 1].Plain?)
    {
      assert r[i + 1] == rest[i + 1];
      if i > 0 {
        assert r[i] == rest[i];
      }
    }
  }

  /** `":$name:"` */
  function Colon(name: string): Text
  {
    Lit(":") + Lit(name) + Lit(":")
  }

  function TokenText(t: Token): Text
  {
    match t
    case Literal(s) => s
    case Shortcode(n) => Colon(n)
  }

  /** The string `$replacement` the tokens add up to. */
  function Render(ts: seq<Token>): Text
    decreases |ts|
  {
    if |ts| == 0 then [] else Render(ts[..|ts| - 1]) + TokenText(ts[|ts| - 1])
  }

  /** One iteration of the `foreach` over the parts. */
  function Step(index: Index, st: State, p: Part): State
  {
    match p
    case Plain(t) => State(st.tokens + [Literal(t)], st.pending)
    case Emoji(c) =>
      var sequence := st.pending + [c];
      match Lookup(index, [c])
      case Some(n) => State(st.tokens + [Shortcode(n)], [])
      case None =>
        match Lookup(index, sequence)
        case Some(n) => State(st.tokens + [Shortcode(n)], [])
        case None => State(st.tokens, sequence)
  }

  /** The whole loop, from state `st`. */
  function RunFrom(index: Index, st: State, parts: seq<Part>): State
    decreases |parts|
  {
    if |parts| == 0 then st else RunFrom(index, Step(index, st, parts[0]), parts[1..])
  }

  /** `unicodeToShortcode($content)`, for the flipped table `index` and the emoji codepoints `pattern`. */
  function UnicodeToShortcode(index: Index, pattern: set<nat>, t: Text): Text
  {
    Render(RunFrom(index, State([], []), Split(t, pattern)).tokens)
  }

  /**
   * The loop as the code runs it: `$replacement` grows by each plain part
   * and each shortcode found, `$sequence` collects the pending codepoints.
   */
  method Reconstruct(index: Index, parts: seq<Part>) returns (replacement: Text)
    ensures replacement == Render(RunFrom(index, State([], []), parts).tokens)
  {
    replacement := [];
    var sequence: seq<nat> := [];
    ghost var st := State([], []);
    for i := 0 to |parts|
      invariant replacement == Render(st.tokens) && sequence == st.pending
      invariant RunFrom(index, st, parts[i..]) == RunFrom(index, State([], []), parts)
    {
      assert parts[i..][1..] == parts[i + 1..];
      match parts[i] {
        case Plain(t) =>
          replacement := replacement + t;
        case Emoji(c) =>
          sequence := sequence + [c];
          var single := Get(index, Hex.HexDigits(c));
          assert Hex.HexKey([c]) == Hex.HexDigits(c);
          if single.Some? {
            replacement := replacement + Colon(single.value);
            sequence := [];
          } else {
            var multi := Get(index, Join("-", Hex.HexParts(sequence)));
            if multi.Some? {
              replacement := replacement + Colon(multi.value);
              sequence := [];
            }
          }
      }
      st := Step(index, st, parts[i]);
    }
    assert parts[|parts|..] == [];
  }

  /** Running over two lists of parts is running over the first, then the second. */
  lemma {:induction false} RunFromAppend(index: Index, st: State, p1: seq<Part>, p2: seq<Part>)
    ensures RunFrom(index, st, p1 + p2) == RunFrom(index, RunFrom(index, st, p1), p2)
    decreases |p1|
  {
    if |p1| == 0 {
      assert p1 + p2 == p2;
    } else {
      var st' := Step(index, st, p1[0]);
      assert (p1 + p2)[0] == p1[0] && (p1 + p2)[1..] == p1[1..] + p2;
      calc {
        RunFrom(index, st, p1 + p2);
        RunFrom(index, st', p1[1..] + p2);
        { RunFromAppend(index, st', p1[1..], p2); }
        RunFrom(index, RunFrom(index, st', p1[1..]), p2);
      }
    }
  }

  /** The tokens only grow: what has been emitted is never taken back. */
  lemma {:induction false} RunFromExtends(index: Index, st: State, parts: seq<Part>)
    ensures st.tokens <= RunFrom(index, st, parts).tokens
    decreases |parts|
  {
    if |parts| > 0 {
      RunFromExtends(index, Step(index, st, parts[0]), parts[1..]);
    }
  }

  /** The literal text among the tokens, in order. */
  function Literals(ts: seq<Token>): Text
    decreases |ts|
  {
    if |ts| == 0 then []
    else Literals(ts[..|ts| - 1]) + (match ts[|ts| - 1] case Literal(s) => s case Shortcode(_) => [])
  }

  /** The plain text among the parts, in order. */
  function PlainText(parts: seq<Part>): Text
    decreases |parts|
  {
    if |parts| == 0 then []
    else (match parts[0] case Plain(t) => t case Emoji(_) => []) + PlainText(parts[1..])
  }

  /** The codepoints of `t` that the pattern does not match, in order. */
  function Outside(t: Text, pattern: set<nat>): Text
    decreases |t|
  {
    if |t| == 0 then [] else (if t[0] in pattern then [] else [t[0]]) + Outside(t[1..], pattern)
  }

  /** Every plain part reaches the output, in its place, and nothing else does as a literal. */
  lemma {:induction false} RunFromLiterals(index: Index, st: State, parts: seq<Part>)
    ensures Literals(RunFrom(index, st, parts).tokens) == Literals(st.tokens) + PlainText(parts)
    decreases |parts|
  {
    if |parts| > 0 {
      var st' := Step(index, st, parts[0]);
      RunFromLiterals(index, st', parts[1..]);
      match parts[0] {
        case Plain(t) =>
          assert st'.tokens[..|st'.tokens| - 1] == st.tokens;
        case Emoji(c) =>
          if st'.tokens != st.tokens {
            assert st'.tokens[..|st'.tokens| - 1] == st.tokens;
          }
      }
    }
  }

  /** The plain text of a part followed by more parts. */
  lemma PlainTextCons(p: Part, rest: seq<Part>)
    ensures PlainText([p] + rest) == (match p case Plain(t) => t case Emoji(_) => []) + PlainText(rest)
  {
    assert ([p] + rest)[1..] == rest;
  }

  /** The plain parts of the split hold exactly the codepoints outside the pattern. */
  lemma {:induction false} SplitPlainText(t: Text, pattern: set<nat>)
    ensures PlainText(Split(t, pattern)) == Outside(t, pattern)
    decreases |t|
  {
    if |t| > 0 {
      SplitPlainText(t[1..], pattern);
      PlainTextStep(t, pattern, Split(t[1..], pattern));
    }
  }

  /** One step of the split adds the first codepoint to the plain text exactly when it is outside the pattern. */
  lemma PlainTextStep(t: Text, pattern: set<nat>, rest: seq<Part>)
    requires |t| > 0 && rest == Split(t[1..], pattern)
    ensures PlainText(Split(t, pattern)) == (if t[0] in pattern then [] else [t[0]]) + PlainText(rest)
  {
    if t[0] in pattern {
      assert Split(t, pattern) == [Emoji(t[0])] + rest;
      PlainTextCons(Emoji(t[0]), rest);
    } else if |rest| > 0 && rest[0].Plain? {
      assert Split(t, pattern) == [Plain([t[0]] + rest[0].text)] + rest[1..];
      PlainTextCons(Plain([t[0]] + rest[0].text), rest[1..]);
      PlainTextCons(rest[0], rest[1..]);
      assert rest == [rest[0]] + rest[1..];
    } else {
      assert Split(t, pattern) == [Plain([t[0]])] + rest;
      PlainTextCons(Plain([t[0]]), rest);
    }
  }

  /**
   * Text outside the emoji pattern survives: the literals of the output
   * are exactly the input's non-emoji codepoints, in order.
   */
  lemma NonEmojiPreserved(index: Index, pattern: set<nat>, t: Text)
    ensures Literals(RunFrom(index, State([], []), Split(t, pattern)).tokens) == Outside(t, pattern)
  {
    RunFromLiterals(index, State([], []), Split(t, pattern));
    SplitPlainText(t, pattern);
  }

  /** Text with no emoji codepoint in it is one plain part. */
  lemma {:induction false} SplitNoEmoji(t: Text, pattern: set<nat>)
    requires |t| > 0 && NoneIn(t, pattern)
    ensures Split(t, pattern) == [Plain(t)]
    decreases |t|
  {
    var rest := Split(t[1..], pattern);
    assert [t[0]] + t[1..] == t;
    if |t| > 1 {
      SplitNoEmoji(t[1..], pattern);
      assert rest[1..] == [];
    } else {
      assert t[1..] == [] && [t[0]] == t;
      assert rest == [];
    }
  }

  /** Running the loop over one part is one step. */
  lemma RunFromOne(index: Index, st: State, p: Part)
    ensures RunFrom(index, st, [p]) == Step(index, st, p)
  {
    assert [p][1..] == [];
  }

  /** Text with no emoji codepoint in it comes back unchanged. */
  lemma NoEmojiUnchanged(index: Index, pattern: set<nat>, t: Text)
    requires NoneIn(t, pattern)
    ensures UnicodeToShortcode(index, pattern, t) == t
  {
    if |t| > 0 {
      SplitNoEmoji(t, pattern);
      RunFromOne(index, State([], []), Plain(t));
      var ts := [Literal(t)];
      assert Render(ts) == Render(ts[..0]) + t;
    }
  }

  /** `name` is a value of the index. */
  predicate IsName(index: Index, name: string)
  {
    exists j :: 0 <= j < |index| && index[j].1 == name
  }

  /** The names of the shortcodes among the tokens all come from the index. */
  predicate NamedIn(index: Index, ts: seq<Token>, from: nat)
  {
    forall i :: from <= i < |ts| && ts[i].Shortcode? ==> IsName(index, ts[i].name)
  }

  /** Every shortcode the loop emits is a name the index holds. */
  lemma {:induction false} RunFromNames(index: Index, st: State, parts: seq<Part>)
    requires NamedIn(index, st.tokens, 0)
    ensures NamedIn(index, RunFrom(index, st, parts).tokens, 0)
    decreases |parts|
  {
    if |parts| > 0 {
      var st' := Step(index, st, parts[0]);
      if parts[0].Emoji? {
        var c := parts[0].cp;
        if Lookup(index, [c]).Some? {
          assert (Hex.HexKey([c]), Lookup(index, [c]).value) in index;
        } else if Lookup(index, st.pending + [c]).Some? {
          assert (Hex.HexKey(st.pending + [c]), Lookup(index, st.pending + [c]).value) in index;
        }
      }
      assert NamedIn(index, st'.tokens, 0);
      RunFromNames(index, st', parts[1..]);
    }
  }

  /** The split of text made only of emoji codepoints: one part each. */
  lemma {:induction false} SplitAllEmoji(s: seq<nat>, pattern: set<nat>)
    requires forall i :: 0 <= i < |s| ==> s[i] in pattern
    ensures Split(s, pattern) == seq(|s|, i requires 0 <= i < |s| => Emoji(s[i]))
    decreases |s|
  {
    if |s| > 0 {
      SplitAllEmoji(s[1..], pattern);
    }
  }

  function Emojis(s: seq<nat>): seq<Part>
  {
    seq(|s|, i requires 0 <= i < |s| => Emoji(s[i]))
  }

  /**
   * The codepoints of a sequence none of whose proper prefixes, and none of
   * whose codepoints alone, has a name: they only pile up in the pending run.
   */
  lemma {:induction false} PendingGrows(index: Index, s: seq<nat>, k: nat)
    requires k <= |s|
    requires forall i :: 0 <= i < k ==> Lookup(index, [s[i]]).None?
    requires forall j :: 1 <= j <= k ==> Lookup(index, s[..j]).None?
    ensures RunFrom(index, State([], []), Emojis(s[..k])) == State([], s[..k])
    decreases k
  {
    if k > 0 {
      PendingGrows(index, s, k - 1);
      EmojisSnoc(s, k);
      RunFromAppend(index, State([], []), Emojis(s[..k - 1]), [Emoji(s[k - 1])]);
      RunFromOne(index, State([], s[..k - 1]), Emoji(s[k - 1]));
      assert s[..k - 1] + [s[k - 1]] == s[..k];
      PendingStep(index, s[..k - 1], s[k - 1]);
    }
  }

  lemma EmojisSnoc(s: seq<nat>, k: nat)
    requires 0 < k <= |s|
    ensures Emojis(s[..k]) == Emojis(s[..k - 1]) + [Emoji(s[k - 1])]
  {
  }

  /** An unnamed codepoint that completes no named run joins the pending run. */
  lemma PendingStep(index: Index, pending: seq<nat>, c: nat)
    requires Lookup(index, [c]).None? && Lookup(index, pending + [c]).None?
    ensures Step(index, State([], pending), Emoji(c)) == State([], pending + [c])
  {
  }

  /**
   * The sequences the loop recognises: `s` has a name, and either it is a
   * single codepoint, or none of its codepoints and none of its proper
   * prefixes has a name of its own.
   */
  predicate Recognized(index: Index, s: seq<nat>, name: string)
  {
    |s| > 0 && Lookup(index, s) == Some(name) &&
    (|s| == 1 ||
      ((forall i :: 0 <= i < |s| ==> Lookup(index, [s[i]]).None?) &&
       (forall j :: 1 <= j < |s| ==> Lookup(index, s[..j]).None?)))
  }

  /** A recognised emoji sequence on its own becomes its shortcode. */
  lemma RecognizedBecomesShortcode(index: Index, pattern: set<nat>, s: seq<nat>, name: string)
    requires Recognized(index, s, name)
    requires forall i :: 0 <= i < |s| ==> s[i] in pattern
    ensures UnicodeToShortcode(index, pattern, s) == Colon(name)
  {
    SplitAllEmoji(s, pattern);
    assert Split(s, pattern) == Emojis(s);
    RecognizedRun(index, s, name);
    RenderOne(Shortcode(name));
  }

  /** The loop over a recognised run ends with its one shortcode and nothing pending. */
  lemma RecognizedRun(index: Index, s: seq<nat>, name: string)
    requires Recognized(index, s, name)
    ensures RunFrom(index, State([], []), Emojis(s)) == State([Shortcode(name)], [])
  {
    var k := |s| - 1;
    if |s| > 1 {
      PendingGrows(index, s, k);
    } else {
      assert Emojis(s[..k]) == [] && [s[0]] == s;
    }
    EmojisSnoc(s, |s|);
    assert s[..|s|] == s;
    RunFromAppend(index, State([], []), Emojis(s[..k]), [Emoji(s[k])]);
    RunFromOne(index, State([], s[..k]), Emoji(s[k]));
    assert s[..k] + [s[k]] == s;
    NamedStep(index, s[..k], s[k], name);
  }

  /** A codepoint named alone, or completing a named run, emits that name and clears the run. */
  lemma NamedStep(index: Index, pending: seq<nat>, c: nat, name: string)
    requires Lookup(index, [c]) == Some(name) || (Lookup(index, [c]).None? && Lookup(index, pending + [c]) == Some(name))
    ensures Step(index, State([], pending), Emoji(c)) == State([Shortcode(name)], [])
  {
  }

  lemma RenderOne(t: Token)
    ensures Render([t]) == TokenText(t)
  {
    assert [t][..0] == [];
  }

  /**
   * Not a longest match: when the first codepoint has a name of its own,
   * it wins even though the pair has a name too, and the second codepoint,
   * unnamed on its own, is then dropped.
   */
  lemma SingleCodepointWins(index: Index, pattern: set<nat>, c: nat, d: nat, n: string, m: string)
    requires c in pattern && d in pattern
    requires Lookup(index, [c]) == Some(n) && Lookup(index, [d]).None? && Lookup(index, [c, d]) == Some(m)
    ensures UnicodeToShortcode(index, pattern, [c, d]) == Colon(n)
  {
    SplitAllEmoji([c, d], pattern);
    assert Emojis([c, d]) == [Emoji(c)] + [Emoji(d)];
    var s0 := State([], []);
    var s1 := Step(index, s0, Emoji(c));
    assert s1 == State([Shortcode(n)], []);
    assert s1.pending + [d] == [d];
    assert Lookup(index, s1.pending + [d]).None?;
    var s2 := Step(index, s1, Emoji(d));
    assert s2 == State([Shortcode(n)], [d]);
    RunFromAppend(index, s0, [Emoji(c)], [Emoji(d)]);
    RunFromOne(index, s0, Emoji(c));
    RunFromOne(index, s1, Emoji(d));
    RenderOne(Shortcode(n));
  }

  /** An emoji codepoint that has no name, alone, is dropped from the output. */
  lemma UnnamedCodepointDropped(index: Index, pattern: set<nat>, c: nat)
    requires c in pattern && Lookup(index, [c]).None?
    ensures UnicodeToShortcode(index, pattern, [c]) == []
  {
    SplitAllEmoji([c], pattern);
    assert Emojis([c]) == [Emoji(c)];
    assert [] + [c] == [c];
    RunFromOne(index, State([], []), Emoji(c));
  }

  /**
   * Plain text does not reset the pending run: with text between them,
   * two codepoints that form a named pair still produce its shortcode,
   * after the text.
   */
  lemma PendingSurvivesText(index: Index, pattern: set<nat>, a: nat, b: nat, p: Text, n: string)
    requires a in pattern && b in pattern && |p| > 0 && NoneIn(p, pattern)
    requires Lookup(index, [a]).None? && Lookup(index, [b]).None? && Lookup(index, [a, b]) == Some(n)
    ensures UnicodeToShortcode(index, pattern, [a] + p + [b]) == p + Colon(n)
  {
    var t := [a] + p + [b];
    assert t[1..] == p + [b];
    SplitPlainPrefix(p, [b], pattern);
    SplitAllEmoji([b], pattern);
    assert Emojis([b]) == [Emoji(b)];
    var parts := [Emoji(a)] + [Plain(p)] + [Emoji(b)];
    assert Split(t, pattern) == parts;
    var s0 := State([], []);
    var s1 := Step(index, s0, Emoji(a));
    assert [] + [a] == [a];
    assert s1 == State([], [a]);
    var s2 := Step(index, s1, Plain(p));
    assert s2 == State([Literal(p)], [a]);
    assert [a] + [b] == [a, b];
    var s3 := Step(index, s2, Emoji(b));
    assert s3 == State([Literal(p), Shortcode(n)], []);
    RunFromAppend(index, s0, [Emoji(a)] + [Plain(p)], [Emoji(b)]);
    RunFromAppend(index, s0, [Emoji(a)], [Plain(p)]);
    RunFromOne(index, s0, Emoji(a));
    RunFromOne(index, s1, Plain(p));
    RunFromOne(index, s2, Emoji(b));
    var ts := s3.tokens;
    assert Render(ts) == Render(ts[..1]) + Colon(n);
    assert ts[..1] == [Literal(p)];
    RenderOne(Literal(p));
  }

  /** Plain text followed by an emoji codepoint splits into a plain part and what follows. */
  lemma {:induction false} SplitPlainPrefix(p: Text, rest: Text, pattern: set<nat>)
    requires |p| > 0 && NoneIn(p, pattern)
    requires |rest| > 0 && rest[0] in pattern
    ensures Split(p + rest, pattern) == [Plain(p)] + Split(rest, pattern)
    decreases |p|
  {
    var t := p + rest;
    assert t[1..] == p[1..] + rest;
    if |p| > 1 {
      SplitPlainPrefix(p[1..], rest, pattern);
      assert [p[0]] + p[1..] == p;
    } else {
      assert p[1..] + rest == rest && [p[0]] == p && t[0] == p[0] && t[0] !in pattern;
      assert Split(rest, pattern) == [Emoji(rest[0])] + Split(rest[1..], pattern);
      assert Split(t, pattern) == [Plain([t[0]])] + Split(t[1..], pattern);
    }
  }
}
