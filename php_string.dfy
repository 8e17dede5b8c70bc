/**
 * The PHP string functions the engine and the generators rely on:
 * `str_replace` with array arguments, `implode`, ASCII `strtolower`,
 * and the view of text as a sequence of Unicode codepoints.
 */
module PhpString {
  import opened PhpArray

  /** Text as the sequence of its Unicode codepoints. */
  type Text = seq<nat>

  /** The codepoints of a literal string. */
  function Lit(s: string): (t: Text)
    ensures |t| == |s|
    ensures forall i :: 0 <= i < |s| ==> t[i] == s[i] as int
  {
    seq(|s|, i requires 0 <= i < |s| => s[i] as int)
  }

  lemma LitAppend(a: string, b: string)
    ensures Lit(a + b) == Lit(a) + Lit(b)
  {
  }

  /** The string spelled by ASCII text. */
  function Chars(t: Text): (s: string)
    requires forall i :: 0 <= i < |t| ==> t[i] < 128
    ensures |s| == |t| && Lit(s) == t
  {
    seq(|t|, i requires 0 <= i < |t| => t[i] as char)
  }

  lemma CharsLit(s: string)
    requires forall i :: 0 <= i < |s| ==> (s[i] as int) < 128
    ensures Chars(Lit(s)) == s
  {
  }

  /** `k` occurs somewhere in `s`. */
  predicate Occurs<T(==)>(k: seq<T>, s: seq<T>)
    decreases |s|
  {
    k <= s || (|s| > 0 && Occurs(k, s[1..]))
  }

  /** What occurs in `s` starts with an element of `s`. */
  lemma OccursFirst<T>(k: seq<T>, s: seq<T>)
    requires |k| > 0 && Occurs(k, s)
    ensures k[0] in s
  {
    var p := OccursWitness(k, s);
    assert s[p..][0] == s[p];
  }

  /** A position at which `k` occurs in `s`. */
  lemma {:induction false} OccursWitness<T>(k: seq<T>, s: seq<T>) returns (p: nat)
    requires Occurs(k, s)
    ensures p <= |s| && k <= s[p..]
    decreases |s|
  {
    if k <= s {
      p := 0;
    } else {
      p := OccursWitness(k, s[1..]);
      assert s[1..][p..] == s[p + 1..];
      p := p + 1;
    }
  }

  /** `k` occurs in `s` when it is a prefix of some suffix of `s`. */
  lemma {:induction false} OccursFrom<T>(k: seq<T>, s: seq<T>, p: nat)
    requires p <= |s| && k <= s[p..]
    ensures Occurs(k, s)
    decreases p
  {
    if p > 0 {
      assert s[1..][p - 1..] == s[p..];
      OccursFrom(k, s[1..], p - 1);
    }
  }

  /**
   * `str_replace($k, $v, $s)` for one non-empty search string: the
   * occurrences of `k` are found left to right, without overlapping,
   * and each is replaced by `v`.
   */
  function ReplaceAll<T(==)>(s: seq<T>, k: seq<T>, v: seq<T>): (r: seq<T>)
    requires |k| > 0
    decreases |s|
  {
    if |s| < |k| then s
    else if k <= s then v + ReplaceAll(s[|k|..], k, v)
    else [s[0]] + ReplaceAll(s[1..], k, v)
  }

  /**
   * `str_replace(array_keys($a), $a, $s)`: each search string in turn, in
   * array order, is replaced throughout the output of the previous one.
   * An empty search string is skipped, as PHP skips it.
   */
  function StrReplace<T(==)>(pairs: Assoc<seq<T>, seq<T>>, s: seq<T>): (r: seq<T>)
    decreases |pairs|
  {
    if |pairs| == 0 then s
    else if |pairs[0].0| == 0 then StrReplace(pairs[1..], s)
    else StrReplace(pairs[1..], ReplaceAll(s, pairs[0].0, pairs[0].1))
  }

  /** A search string that does not occur leaves the subject unchanged. */
  lemma {:induction false} ReplaceAbsent<T>(s: seq<T>, k: seq<T>, v: seq<T>)
    requires |k| > 0 && !Occurs(k, s)
    ensures ReplaceAll(s, k, v) == s
  {
    if |s| >= |k| {
      ReplaceAbsent(s[1..], k, v);
      assert [s[0]] + s[1..] == s;
    }
  }

  /** A subject that is exactly the search string becomes the replacement. */
  lemma ReplaceWhole<T>(k: seq<T>, v: seq<T>)
    requires |k| > 0
    ensures ReplaceAll(k, k, v) == v
  {
    assert k[|k|..] == [];
  }

  /** When no search string occurs in the subject, `str_replace` changes nothing. */
  lemma {:induction false} StrReplaceAbsent<T>(pairs: Assoc<seq<T>, seq<T>>, s: seq<T>)
    requires forall i :: 0 <= i < |pairs| ==> !Occurs(pairs[i].0, s)
    ensures StrReplace(pairs, s) == s
  {
    if |pairs| > 0 {
      if |pairs[0].0| > 0 {
        ReplaceAbsent(s, pairs[0].0, pairs[0].1);
      }
      StrReplaceAbsent(pairs[1..], s);
    }
  }

  /**
   * Replacing a whole subject: when none of the earlier search strings
   * occurs in `s`, `s` is the search string at `i`, and none of the later
   * ones occurs in its replacement, the result is that replacement.
   */
  lemma {:induction false} StrReplaceSingle<T>(pairs: Assoc<seq<T>, seq<T>>, i: nat, s: seq<T>)
    requires i < |pairs| && pairs[i].0 == s && |s| > 0
    requires forall j :: 0 <= j < i ==> !Occurs(pairs[j].0, s)
    requires forall j :: i < j < |pairs| ==> !Occurs(pairs[j].0, pairs[i].1)
    ensures StrReplace(pairs, s) == pairs[i].1
  {
    if i == 0 {
      ReplaceWhole(s, pairs[0].1);
      StrReplaceAbsent(pairs[1..], pairs[0].1);
    } else {
      if |pairs[0].0| > 0 {
        ReplaceAbsent(s, pairs[0].0, pairs[0].1);
      }
      StrReplaceSingle(pairs[1..], i - 1, s);
    }
  }

  /** `implode($sep, $parts)` */
  function Join<T>(sep: seq<T>, parts: seq<seq<T>>): seq<T>
    decreases |parts|
  {
    if |parts| == 0 then []
    else if |parts| == 1 then parts[0]
    else parts[0] + sep + Join(sep, parts[1..])
  }

  /** Appending one more part to `implode` adds the separator and the part. */
  lemma {:induction false} JoinSnoc<T>(sep: seq<T>, parts: seq<seq<T>>, p: seq<T>)
    ensures Join(sep, parts + [p]) == if |parts| == 0 then p else Join(sep, parts) + sep + p
  {
    if |parts| > 1 {
      assert (parts + [p])[1..] == parts[1..] + [p];
      JoinSnoc(sep, parts[1..], p);
    } else if |parts| == 1 {
      assert (parts + [p])[1..] == [p];
    }
  }

  /** `explode($sep, $s)`: the pieces of `s` between occurrences of `sep`; at least one. */
  function Explode(sep: char, s: string): (r: seq<string>)
    ensures |r| >= 1
    ensures Join([sep], r) == s
    ensures forall i :: 0 <= i < |r| ==> sep !in r[i]
    decreases |s|
  {
    if |s| == 0 then [""]
    else
      var r := Explode(sep, s[1..]);
      if s[0] == sep then
        assert s == [sep] + s[1..];
        [""] + r
      else
        var r' := [[s[0]] + r[0]] + r[1..];
        assert r'[1..] == r[1..];
        assert s == [s[0]] + s[1..];
        r'
  }

  /** A piece without the separator explodes to itself. */
  lemma {:induction false} ExplodeNoSep(sep: char, a: string)
    requires sep !in a
    ensures Explode(sep, a) == [a]
    decreases |a|
  {
    if |a| > 0 {
      ExplodeNoSep(sep, a[1..]);
      assert [a[0]] + a[1..] == a;
    }
  }

  /** A separator-free piece, the separator, then more text: the piece comes first. */
  lemma {:induction false} ExplodeCons(sep: char, a: string, b: string)
    requires sep !in a
    ensures Explode(sep, a + [sep] + b) == [a] + Explode(sep, b)
    decreases |a|
  {
    var s := a + [sep] + b;
    if |a| == 0 {
      assert s[1..] == b;
    } else {
      assert s[1..] == a[1..] + [sep] + b;
      ExplodeCons(sep, a[1..], b);
      assert [a[0]] + a[1..] == a;
    }
  }

  /** `explode` undoes `implode` when no piece holds the separator. */
  lemma {:induction false} ExplodeJoin(sep: char, parts: seq<string>)
    requires |parts| >= 1
    requires forall i :: 0 <= i < |parts| ==> sep !in parts[i]
    ensures Explode(sep, Join([sep], parts)) == parts
    decreases |parts|
  {
    if |parts| == 1 {
      ExplodeNoSep(sep, parts[0]);
    } else {
      ExplodeJoin(sep, parts[1..]);
      ExplodeCons(sep, parts[0], Join([sep], parts[1..]));
      assert [parts[0]] + parts[1..] == parts;
    }
  }

  /** ASCII `strtolower` on one character. */
  function LowerChar(c: char): char
  {
    if 'A' <= c <= 'Z' then (c as int + 32) as char else c
  }

  /** ASCII `strtolower`. */
  function Lower(s: string): (r: string)
    ensures |r| == |s|
    ensures forall i :: 0 <= i < |s| ==> r[i] == LowerChar(s[i])
  {
    seq(|s|, i requires 0 <= i < |s| => LowerChar(s[i]))
  }
}
