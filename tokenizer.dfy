/**
 * `Tokenizer`: a cursor over the characters of a string. The offset starts
 * one before the first character; `consume` advances it and reports the
 * character under it as `%04X` hexadecimal, `rewind` steps back by one but
 * never below the first character, and `raw` reads the current character.
 *
 * The source declares the offset as a `string` property; PHP coerces the
 * integer assignments and increments through it, so it is modelled as an
 * integer.
 */
module Tokenizer {
  import opened PhpArray
  import Hex

  /** What `consume` reports once the offset is `i`: `None` past the end. */
  function ConsumedAt(source: seq<nat>, i: int): (r: Option<string>)
    requires i >= 0
    ensures r.None? <==> i >= |source|
    ensures r.Some? ==> |r.value| >= 4 && Hex.HexValue(r.value) == source[i]
    ensures r.Some? && source[i] >= 0x1000 ==> r.value == Hex.HexDigits(source[i])
  {
    if i >= |source| then None
    else
      Hex.Hex4RoundTrip(source[i]);
      if source[i] >= 0x1000 then
        Hex.Hex4Unpadded(source[i]);
        Some(Hex.Hex4(source[i]))
      else
        Some(Hex.Hex4(source[i]))
  }

  class Tokenizer {
    /** `mb_str_split($source)`: the characters, as codepoints. */
    const source: seq<nat>
    var offset: int

    /** The offset never goes below its starting value. */
    ghost predicate Valid()
      reads this
    {
      offset >= -1
    }

    constructor(source: seq<nat>)
      ensures Valid()
      ensures this.source == source && offset == -1
    {
      this.source := source;
      offset := -1;
    }

    /** `consume`: the offset advances even when it runs past the end. */
    method Consume() returns (r: Option<string>)
      requires Valid()
      modifies this`offset
      ensures Valid()
      ensures offset == old(offset) + 1
      ensures r == ConsumedAt(source, offset)
    {
      offset := offset + 1;
      if offset >= |source| {
        return None;
      }
      var c := source[offset];
      r := Some(Hex.Hex4(c));
    }

    /** `rewind`: one step back, only from a positive offset. */
    method Rewind()
      requires Valid()
      modifies this`offset
      ensures Valid()
      ensures offset == if old(offset) > 0 then old(offset) - 1 else old(offset)
    {
      if offset > 0 {
        offset := offset - 1;
      }
    }

    /** `raw`: the character under the offset, `None` outside the source. */
    function Raw(): (r: Option<nat>)
      reads this
      ensures r.Some? <==> 0 <= offset < |source|
      ensures r.Some? ==> r.value == source[offset]
    {
      if 0 <= offset < |source| then Some(source[offset]) else None
    }
  }

  /** A new cursor's first `consume` reads the first character. */
  method FirstConsume(source: seq<nat>) returns (r: Option<string>, raw: Option<nat>)
    ensures |source| == 0 ==> r.None? && raw.None?
    ensures |source| > 0 ==> r == Some(Hex.Hex4(source[0])) && raw == Some(source[0])
  {
    var t := new Tokenizer(source);
    r := t.Consume();
    raw := t.Raw();
  }

  /** After a `consume` that leaves the offset at 1 or more, `rewind` then `consume` repeats it. */
  method RewindRepeats(t: Tokenizer) returns (first: Option<string>, again: Option<string>)
    requires t.Valid() && t.offset >= 0
    modifies t
    ensures first == again
  {
    first := t.Consume();
    t.Rewind();
    again := t.Consume();
  }

  /**
   * Running past the end is not undone by one `rewind`: after two `consume`
   * calls beyond the last character, `rewind` then `consume` still reports
   * the end, not the last character.
   */
  method OverrunNeedsMoreRewinds(t: Tokenizer) returns (r1: Option<string>, r2: Option<string>, r3: Option<string>)
    requires t.Valid() && |t.source| > 0 && t.offset == |t.source| - 1
    modifies t
    ensures r1.None? && r2.None? && r3.None?
    ensures t.offset == |t.source| + 1
  {
    r1 := t.Consume();
    r2 := t.Consume();
    t.Rewind();
    r3 := t.Consume();
  }
}
