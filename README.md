# LitEmoji in Dafny

This project models the core of LitEmoji, a PHP library that converts emoji between three spellings:
- Unicode codepoints;
- HTML hexadecimal entities (`&#x1F604;`);
- plaintext shortcodes (`:smile:`).

It also models the two build scripts that generate the library's data files: the shortcode table and the emoji regular expression.

Content is modelled as a sequence of codepoints (`Text = seq<nat>`). Shortcode names and hexcodes are `string`s. A PHP ordered array is an association list, `PhpArray.Assoc`: `Put` keeps the position of an existing key and appends a new one. PHP's string built-ins used by the core are written out in `PhpString` and `Hex`:
- `str_replace`, with a single pair and with an array of pairs;
- `explode` and `implode`;
- `strtolower`;
- `hexdec`, which skips non-hex characters;
- `sprintf('%X')`, `sprintf('%04X')` and `dechex`.

## Modules

- **PhpArray, PhpString, Hex, Utf8.** The PHP and UTF-8 primitives above, each with its inverse or its characterising lemmas.
- **Entities.** The entity normalisation that `entitiesToUnicode` performs before it looks entities up. A hexadecimal entity is upper-cased; a decimal entity is rewritten in hexadecimal.
- **Tables.**
  - The exclusion filter (`getShortcodes`).
  - The reverse index (`array_flip`).
  - The three lookup arrays, keyed as `:name:` or `&#x..;`.
  - Proofs that each array, applied through `str_replace`, decodes or encodes every entry of a well-formed table.
- **Matcher.** The reconstruction loop of `unicodeToShortcode`, modelled exactly as written (see below).
- **LitEmoji.**
  - The conversions as functions of a table.
  - Their compositions, and the round trips between them.
  - `removeEmoji`.
  - The class `LitEmoji`, whose fields are the engine's static caches and its exclusion list.
- **Tokenizer.** The class `Tokenizer`: consume, rewind and raw over a codepoint source.
- **RegexTrie, RegexText, RegexGen.** The regex generator:
  - codepoints are collected and sorted;
  - each is zero-padded to four UTF-8 bytes and inserted into a byte trie;
  - each second-level group is compressed into byte-range expressions;
  - the expressions are written out as one pattern.

  `RegexText.Parse` reads an expression back to the range it denotes. `RegexText.Accepts` reads an expression as PCRE does, one byte per `\x` atom. `RegexGen.Coverage` states exactly which collected codepoints the generated pattern matches: those of two or more UTF-8 bytes.
- **ShortcodeGen.** The shortcode-array generator:
  - shortcode normalisation;
  - the merge of an emoji list with a preset's shortcodes;
  - the longest-hexcode-first stable sort;
  - serialisation to `<?php return [...]`, with a reader that proves the file reads back as the table.

The engine's static state is modelled as fields of a `LitEmoji` object. The emoji regular expression is modelled as the set of codepoints it matches (`pattern`).

### Where the code and its description differ

`unicodeToShortcode` does not match the longest known sequence, although its comments suggest so. For each emoji codepoint it:
- emits a shortcode as soon as the single codepoint has a name of its own;
- otherwise, tries the whole pending run.

The model follows the code. `Matcher.SingleCodepointWins` shows that a named first codepoint wins over a longer named sequence. `Matcher.UnnamedCodepointDropped` shows that an unnamed emoji codepoint disappears. `Matcher.PendingSurvivesText` shows that plain text does not reset the pending run.

The model also keeps other behaviours of the code as they are:
- `config` clears only the shortcode cache, so the three derived arrays keep the exclusions in force when they were built (`LitEmoji.ExclusionAfterUse`);
- a zero-padded hexcode such as `00A9` is never found by `unicodeToShortcode`, which looks codepoints up in `%X` spelling (`LitEmoji.PaddedHexcodeMissed`);
- `removeEmoji` keeps shortcodes whose names contain a non-word character (`LitEmoji.RemoveEmojiKeepsOtherNames`);
- `array_flip` lets the last name listed for a hexcode win, so `unicodeToShortcode` emits that name (`Tables.FlipLastWins`);
- `removeEmoji` is not idempotent: a deletion can bring two colons around a word together, so `::y:z:` becomes `:z:`, and a second call leaves nothing (`LitEmoji.RemoveTokensTwice`, `LitEmoji.RemoveEmojiNotIdempotent`);
- the regex generator's `!$first` test drops the ranges of the ASCII codepoints whenever a two-byte codepoint is also present (`RegexGen.DroppedWhenShared`);
- the generated pattern never matches an ASCII codepoint. When the ASCII range survives, its third byte 0 is written with `dechex` as `\x0`, and PCRE reads `\x0` as a NUL byte that the codepoint does not have. A table holding only `#` gives the alternative `\x0\x23`, which matches NUL followed by `#` (`RegexGen.AsciiAlternative`). `RegexGen.Coverage` and `RegexGen.Generate` therefore state that a collected codepoint is matched exactly when it is at least 0x80.

## Model

| member | source | states |
|---|---|---|
| PhpArray.IndexOf | src/LitEmoji.php:121 | the first position holding the key, or the array's length exactly when the key is absent |
| PhpArray.Get | src/LitEmoji.php:121-122 | `None` exactly when the key is absent; otherwise a value stored under it, and with distinct keys the value at any position holding the key |
| PhpArray.Put | src/LitEmoji.php:232 | assignment keeps every key's position, appends a new key at the end, leaves other keys' entries alone, and the key then reads back as the new value |
| PhpArray.PutOther | src/LitEmoji.php:232 | assigning one key leaves the lookup of every other key unchanged |
| PhpArray.PutTwice | src/LitEmoji.php:232 | a second assignment to the same key overwrites the first in place |
| PhpArray.PutDistinct | src/LitEmoji.php:232 | assignment keeps keys distinct |
| PhpArray.GetOr | bin/generate-unicode-regex.php:37-41 | the stored value when the key is present, the default otherwise |
| PhpString.StrReplaceAbsent | src/LitEmoji.php:65 | `str_replace` with an array of pairs changes nothing when no search key occurs |
| PhpString.StrReplaceSingle | src/LitEmoji.php:65 | content that is exactly one key becomes that key's replacement, provided earlier keys do not occur in it and later keys do not occur in the replacement |
| PhpString.ReplaceAbsent | bin/generate-shortcodes-array.php:14 | `str_replace` of one key that does not occur changes nothing |
| PhpString.JoinSnoc | src/LitEmoji.php:126 | `implode` of one more part adds the separator and the part (no separator before a first part) |
| PhpString.Explode | src/LitEmoji.php:225 | at least one part; no part contains the separator; joining the parts with it gives back the input |
| PhpString.ExplodeJoin | src/LitEmoji.php:225 | `explode` undoes `implode` of separator-free parts |
| PhpString.Lower | bin/generate-shortcodes-array.php:14 | same length, each character lower-cased |
| Hex.HexDigits | src/LitEmoji.php:117 | `%X`: at least one digit, all upper-case hexadecimal |
| Hex.HexRoundTrip | src/LitEmoji.php:229 | `hexdec` reads back the number `%X` wrote |
| Hex.HexInjective | src/LitEmoji.php:117 | distinct codepoints have distinct `%X` spellings |
| Hex.HexNoLeadingZero | src/LitEmoji.php:117 | `%X` writes a leading zero only for zero |
| Hex.HexLengthAtLeast | src/LitEmoji.php:117 | a number of at least 16^k has more than k digits |
| Hex.PadLeft | src/Tokenizer.php:35 | left padding with `0` to a width: the length is the larger of the two, and the original is the suffix |
| Hex.ZerosValue | src/Tokenizer.php:35 | `hexdec` ignores leading zeros |
| Hex.ZerosOnlyValue | src/Tokenizer.php:35 | a string of zeros reads as 0 |
| Hex.Zeros | src/Tokenizer.php:35 | a string of z zeros |
| Hex.Hex4 | src/Tokenizer.php:35 | `%04X`: at least four hex digits |
| Hex.Hex4RoundTrip | src/Tokenizer.php:35 | `hexdec` reads back the number `%04X` wrote |
| Hex.PadLeftZeros | src/Tokenizer.php:35 | `%04X` only adds leading zeros in front of the hex digits |
| Hex.Hex4Unpadded | src/Tokenizer.php:35 | from 0x1000 upwards, `%04X` and `%X` agree |
| Hex.Hex2 | bin/generate-unicode-regex.php:20-22 | a byte is written as exactly two hex digits, which `hexdec` reads back as the byte; `00` only for zero |
| Hex.DecDigits | src/LitEmoji.php:84 | the decimal spelling: at least one decimal digit |
| Hex.DecRoundTrip | src/LitEmoji.php:84 | reading back a decimal entity code gives the number |
| Hex.HexParts | src/LitEmoji.php:225 | the `%X` spelling of each codepoint, in order |
| Hex.ParseKey | src/LitEmoji.php:225-230 | a hexcode names at least one codepoint |
| Hex.HexDigitsNoHyphen | src/LitEmoji.php:126 | a `%X` spelling never contains the `-` joiner |
| Hex.ExplodeHexKey | src/LitEmoji.php:225 | exploding an `implode('-')` key on `-` gives the parts back |
| Hex.ParseHexKey | src/LitEmoji.php:225-230 | reading a `%X` key back gives the codepoint sequence |
| Hex.HexKeyInjective | src/LitEmoji.php:126-128 | distinct sequences have distinct keys |
| Hex.KeyShorter | bin/generate-shortcodes-array.php:53-54 | a proper infix sequence has a strictly shorter key, which is why the longest-first order replaces containing sequences first |
| Utf8.Encode | src/LitEmoji.php:229 | one to four bytes, continuation bytes after the first, and one, two or three bytes exactly for codepoints below 0x80, 0x800 and 0x10000 |
| Utf8.DecodeEncode | src/LitEmoji.php:115-116 | decoding an encoded scalar gives it back |
| Utf8.EncodeDecode | src/LitEmoji.php:115-116 | any byte sequence that decodes is the encoding of its scalar |
| Utf8.EncodeInjective | bin/generate-unicode-regex.php:19-22 | distinct scalars have distinct encodings |
| Entities.Upper | src/LitEmoji.php:81 | same length, each codepoint upper-cased |
| Entities.AlnumEnd | src/LitEmoji.php:77 | the end of the alphanumeric run starting at a position |
| Entities.EntityCode | src/LitEmoji.php:77 | a match is `&#`, an alphanumeric code and `;` at the start of the text |
| Entities.Entity | src/LitEmoji.php:84 | an entity is `&#x`, at least one digit, and `;` |
| Entities.EntityRun | src/LitEmoji.php:249-250 | the entity string of a sequence is empty exactly when the sequence is |
| Entities.NormalizeNoAmp | src/LitEmoji.php:77-85 | text without `&` is left unchanged |
| Entities.EntityCodeOf | src/LitEmoji.php:77 | the callback is handed the code between `&#` and `;` |
| Entities.NormalizeHexEntity | src/LitEmoji.php:80-81 | a hexadecimal entity has its digits upper-cased |
| Entities.NormalizeDecimalEntity | src/LitEmoji.php:84 | a decimal entity becomes the upper-case hexadecimal entity of the same number |
| Entities.NormalizeEntity | src/LitEmoji.php:77-85 | a canonical entity is left as it is |
| Entities.NormalizeRun | src/LitEmoji.php:77-85 | a run of canonical entities is left as it is |
| Entities.EntityShape | src/LitEmoji.php:250 | `&` only at the start of an entity, `;` only at its end |
| Entities.EntityPrefix | src/LitEmoji.php:250 | one entity string starting another means they are the same entity |
| Entities.RunPrefix | src/LitEmoji.php:249-250 | an entity run that is a prefix of another comes from a prefix sequence |
| Entities.RunInjective | src/LitEmoji.php:249-254 | distinct sequences have distinct entity keys |
| Entities.RunInfix | src/LitEmoji.php:249-254 | an entity run occurs inside another only if its sequence occurs inside the other's |
| Tables.FilterKeeps | src/LitEmoji.php:211-213 | an entry is kept exactly when its name is not excluded |
| Tables.FilterAppend | src/LitEmoji.php:211-213 | filtering distributes over concatenation, so order is kept |
| Tables.FilterNothing | src/LitEmoji.php:211-213 | with nothing excluded the table is unchanged |
| Tables.LastNameForFinds | src/LitEmoji.php:101 | absent exactly when no entry has the hexcode; otherwise the name of the last entry that does |
| Tables.FlipLastWins | src/LitEmoji.php:101 | `array_flip` maps each hexcode to the last name listed for it |
| Tables.FlipPairs | src/LitEmoji.php:101 | the flipped array has distinct keys, and each of its pairs is a table entry reversed |
| Tables.EntityTextStart | src/LitEmoji.php:250 | the entity text of an entry starts with `&` |
| Tables.DerivedSnoc | src/LitEmoji.php:224-232 | each lookup array grows by one assignment per table entry: `:name:` to codepoints, entity to codepoints, `:name:` to entity |
| Tables.PartsCodepoints | src/LitEmoji.php:225-230 | `hexdec` of each `explode('-')` part gives the entry's codepoints |
| Tables.DerivedNonEmpty | src/LitEmoji.php:218-222 | a non-empty table builds non-empty arrays, so the `!empty` cache test holds once they are built |
| Tables.ColonInjective | src/LitEmoji.php:232 | distinct names have distinct `:name:` keys |
| Tables.ColonOccurs | src/LitEmoji.php:65 | for names without `:`, one `:name:` occurs in another only when the names are equal |
| Tables.NewColonKey | src/LitEmoji.php:232 | with distinct names, the last entry's `:name:` key is new |
| Tables.ShortcodeCodepointsShape | src/LitEmoji.php:224-233 | with distinct names, the array holds `:name:` to codepoints for each entry, in table order |
| Tables.ShortcodeEntitiesShape | src/LitEmoji.php:266-273 | with distinct names, the array holds `:name:` to the entity run for each entry, in table order |
| Tables.EntityRunSnoc | src/LitEmoji.php:249-251 | the entity of a sequence grows by one entity per codepoint |
| Tables.EntityTextRun | src/LitEmoji.php:249-250 | the entity built from `%X` parts is the entity run of the codepoints |
| Tables.EntityKeyCanonical | src/LitEmoji.php:249-254 | for a hexcode in `%X` spelling, the entity key is the entity run of its codepoints |
| Tables.EntityKeysStartWithAmp | src/LitEmoji.php:250 | every entity key starts with `&` |
| Tables.PutKeyed | src/LitEmoji.php:254 | an assignment keeps the entity array keyed by its values, longest keys first, and keeps every key present |
| Tables.AppendKeyed | src/LitEmoji.php:254 | appending a new entity key keeps the array keyed by its values |
| Tables.AppendOrdered | src/LitEmoji.php:254 | appending in longest-first table order keeps the keys longest first |
| Tables.RunKeyInjective | src/LitEmoji.php:249-254 | the entity key of a sequence determines the sequence |
| Tables.EntityArray | src/LitEmoji.php:244-257 | built from a canonical longest-first table, the entity array is keyed by its values, with the longest keys first, and holds every entry |
| Tables.EntityRunDecodes | src/LitEmoji.php:87-88 | the entity run of an entry decodes back to its codepoints through the whole entity array |
| Tables.RunHasNoColon | src/LitEmoji.php:250 | an entity never contains `:` |
| Tables.ColonKeysApart | src/LitEmoji.php:65 | one entry's `:name:` never occurs in another's |
| Tables.ShortcodeDecodes | src/LitEmoji.php:64-65 | `:name:` becomes the entry's codepoints through the whole shortcode array |
| Tables.ShortcodeEntityEncodes | src/LitEmoji.php:149-150 | `:name:` becomes the entry's entity run through the whole entity array |
| Tables.NoTokenUnchanged | src/LitEmoji.php:65 | content that holds no `:name:` of the table passes both replacements unchanged |
| Matcher.SplitFacts | src/LitEmoji.php:104-109 | the parts concatenate to the content; each emoji part is one pattern codepoint; plain parts are non-empty, hold no pattern codepoint and never follow one another; the first part is an emoji exactly when the content starts with one |
| Matcher.Reconstruct | src/LitEmoji.php:112-136 | the loop's replacement string is the rendering of the tokens the step function produces over the parts |
| Matcher.RunFromAppend | src/LitEmoji.php:113-136 | the loop over two part lists is the loop over the second, started from the state the first leaves |
| Matcher.RunFromExtends | src/LitEmoji.php:113-136 | the replacement only grows |
| Matcher.RunFromLiterals | src/LitEmoji.php:133-135 | the literal text emitted is exactly the plain parts, in order |
| Matcher.SplitPlainText | src/LitEmoji.php:104-109 | the plain parts are exactly the content with the pattern codepoints removed |
| Matcher.NonEmojiPreserved | src/LitEmoji.php:97-139 | all non-emoji text survives in order |
| Matcher.SplitNoEmoji | src/LitEmoji.php:104-109 | content without emoji is a single plain part |
| Matcher.NoEmojiUnchanged | src/LitEmoji.php:97-139 | content without emoji is returned unchanged |
| Matcher.RunFromNames | src/LitEmoji.php:121-131 | every shortcode emitted is a name in the flipped table |
| Matcher.SplitAllEmoji | src/LitEmoji.php:104-109 | content made only of emoji codepoints splits into one part per codepoint |
| Matcher.PendingGrows | src/LitEmoji.php:119-131 | while no single codepoint and no prefix is named, nothing is emitted and the run accumulates |
| Matcher.RecognizedBecomesShortcode | src/LitEmoji.php:113-131 | a sequence found only once it is complete becomes its `:name:` |
| Matcher.RecognizedRun | src/LitEmoji.php:113-131 | the scan over a recognised sequence leaves exactly one `:name:` token and no pending run |
| Matcher.SingleCodepointWins | src/LitEmoji.php:121-123 | a named first codepoint is emitted even when the two-codepoint sequence has a name |
| Matcher.UnnamedCodepointDropped | src/LitEmoji.php:119-131 | an emoji codepoint with no name, and no sequence it completes, is dropped |
| Matcher.PendingSurvivesText | src/LitEmoji.php:112-135 | plain text between two codepoints does not reset the pending run, so the pair is still found after the text |
| Matcher.SplitPlainPrefix | src/LitEmoji.php:104-109 | a plain prefix before an emoji splits off as one part |
| LitEmoji.WordEnd | src/LitEmoji.php:190 | the end of the `\w` run starting at a position |
| LitEmoji.RemoveTokens | src/LitEmoji.php:190 | removal never lengthens the text |
| LitEmoji.NoAmpUnchanged | src/LitEmoji.php:74-89 | text without `&` passes `entitiesToUnicode` unchanged |
| LitEmoji.EncodeHtmlToken | src/LitEmoji.php:34-40 | `encodeHtml` turns a shortcode into its entity run |
| LitEmoji.EncodeUnicodeToken | src/LitEmoji.php:48-54 | `encodeUnicode` turns a shortcode into its codepoints |
| LitEmoji.EncodeUnicodeEntities | src/LitEmoji.php:48-54 | `encodeUnicode` turns an entry's entity run into its codepoints |
| LitEmoji.HtmlThenUnicode | src/LitEmoji.php:34-54 | `encodeUnicode` after `encodeHtml` takes a shortcode to its codepoints |
| LitEmoji.DecimalEntityDecodes | src/LitEmoji.php:74-89 | a decimal entity of a single-codepoint emoji decodes to it |
| LitEmoji.HexEntityDecodes | src/LitEmoji.php:74-89 | a hexadecimal entity in any letter case decodes to its codepoint |
| LitEmoji.EncodeShortcodeRecognized | src/LitEmoji.php:20-26 | an entry's codepoints encode to `:name:`, where name is the last one listed for that hexcode, which is the entry's own when no later entry shares it |
| LitEmoji.ShortcodeRoundTrip | src/LitEmoji.php:20-54 | `encodeShortcode` after `encodeUnicode` gives back a shortcode whose hexcode is not listed again later |
| LitEmoji.PaddedHexcodeMissed | src/LitEmoji.php:117-128 | with the hexcode `00A9`, the shortcode decodes to U+00A9 but U+00A9 is not encoded back, because the lookup key is `A9` |
| LitEmoji.PaddedCodepoints | src/LitEmoji.php:229 | `hexdec('00A9')` is 0xA9 |
| LitEmoji.PaddedKeyDiffers | src/LitEmoji.php:117 | `%X` of 0xA9 is `A9`, not `00A9` |
| LitEmoji.EmittedNamesListed | src/LitEmoji.php:101-131 | every emitted shortcode is a name in the table |
| LitEmoji.ExcludedNeverEmitted | src/LitEmoji.php:204-216 | an excluded name is never emitted |
| LitEmoji.RemoveTokensNoColon | src/LitEmoji.php:190 | text without `:` is untouched |
| LitEmoji.RemoveTokensKeepsPrefix | src/LitEmoji.php:190 | a prefix without `:` is kept |
| LitEmoji.RemoveTokensDeletesToken | src/LitEmoji.php:190 | a `:word:` token is deleted |
| LitEmoji.RemoveTokensKeepsOtherNames | src/LitEmoji.php:190 | a `:name:` with a non-word character is kept |
| LitEmoji.RemoveEmojiDeletes | src/LitEmoji.php:187-192 | an emoji whose name is all word characters is removed |
| LitEmoji.RemoveEmojiKeepsOtherNames | src/LitEmoji.php:187-192 | an emoji whose name holds a non-word character is left as its shortcode |
| LitEmoji.RemoveTokensTwice | src/LitEmoji.php:190 | one pass turns `::y:z:` into `:z:`, and a second pass deletes that |
| LitEmoji.RemoveEmojiNotIdempotent | src/LitEmoji.php:187-192 | with emoji outside ASCII, `removeEmoji` turns `::y:z:` into `:z:` and `:z:` into nothing |
| LitEmoji.AsciiPasses | src/LitEmoji.php:187-192 | ASCII text without `&` passes `encodeShortcode` unchanged |
| LitEmoji.Strings | src/LitEmoji.php:169-173 | exactly the string elements are kept |
| LitEmoji.HexValues | src/LitEmoji.php:228-230 | the loop decodes each part with `hexdec` |
| LitEmoji.EntityValues | src/LitEmoji.php:249-252 | the loop builds the entity and the codepoints of the parts |
| LitEmoji.LitEmoji.constructor | src/LitEmoji.php:7-12 | no exclusions and all caches empty |
| LitEmoji.LitEmoji.GetShortcodes | src/LitEmoji.php:204-216 | the table filtered by the current exclusions, cached |
| LitEmoji.LitEmoji.GetShortcodeCodepoints | src/LitEmoji.php:218-236 | the cached array when one exists, else the array built from the filtered table; records the exclusions it was built under |
| LitEmoji.LitEmoji.FillShortcodeCodepoints | src/LitEmoji.php:224-233 | the loop builds the shortcode to codepoints array of the table |
| LitEmoji.LitEmoji.AddShortcodeCodepoint | src/LitEmoji.php:225-232 | one entry assigns `:name:` to its codepoints |
| LitEmoji.LitEmoji.GetEntityCodepoints | src/LitEmoji.php:238-258 | the cached array when one exists, else the array built from the filtered table |
| LitEmoji.LitEmoji.FillEntityCodepoints | src/LitEmoji.php:244-255 | the loop builds the entity to codepoints array of the table |
| LitEmoji.LitEmoji.AddEntityCodepoint | src/LitEmoji.php:245-254 | one entry assigns its entity to its codepoints |
| LitEmoji.LitEmoji.GetShortcodeEntities | src/LitEmoji.php:260-276 | the cached array when one exists, else the array built from the filtered table |
| LitEmoji.LitEmoji.FillShortcodeEntities | src/LitEmoji.php:266-273 | the loop builds the shortcode to entity array of the table |
| LitEmoji.LitEmoji.ShortcodeToUnicode | src/LitEmoji.php:62-66 | replacement through the array built under the exclusions recorded for that cache |
| LitEmoji.LitEmoji.EntitiesToUnicode | src/LitEmoji.php:74-89 | normalisation, then replacement through the cached entity array |
| LitEmoji.LitEmoji.UnicodeToShortcode | src/LitEmoji.php:97-139 | the reconstruction over the table filtered by the current exclusions |
| LitEmoji.LitEmoji.ShortcodeToEntities | src/LitEmoji.php:147-151 | replacement through the cached shortcode to entity array |
| LitEmoji.LitEmoji.EncodeShortcode | src/LitEmoji.php:20-26 | entities decoded with the cached array, then shortcodes from the current table |
| LitEmoji.LitEmoji.EncodeHtml | src/LitEmoji.php:34-40 | shortcodes from the current table, then entities from the cached array |
| LitEmoji.LitEmoji.EncodeUnicode | src/LitEmoji.php:48-54 | shortcodes, then entities, each decoded with its cached array |
| LitEmoji.LitEmoji.RemoveEmoji | src/LitEmoji.php:187-192 | `:\w+:` tokens removed from the `encodeShortcode` result |
| LitEmoji.LitEmoji.Config | src/LitEmoji.php:159-179 | `excludeShortcodes` sets the exclusions to the string elements of the value (a scalar taken as a one-element list) and clears only the shortcode cache; any other property changes nothing |
| LitEmoji.CollectStrings | src/LitEmoji.php:169-173 | the loop over the option value keeps its string elements, in order |
| LitEmoji.NewEngineEncodes | src/LitEmoji.php:20-54 | on a fresh engine the three encoders are the conversion functions of the preset |
| LitEmoji.ExclusionAfterUse | src/LitEmoji.php:159-179 | excluding a name after a first `shortcodeToUnicode` does not change its second result, because the derived cache is not cleared |
| LitEmoji.ExcludeThenReverse | src/LitEmoji.php:159-179 | after excluding a name, `unicodeToShortcode` uses the filtered table |
| Tokenizer.ConsumedAt | src/Tokenizer.php:25-36 | `null` exactly past the end; otherwise at least four hex digits that `hexdec` reads back as the codepoint, equal to its `%X` spelling from 0x1000 upwards |
| Tokenizer.Tokenizer.constructor | src/Tokenizer.php:11-16 | holds the source, with the offset at -1 |
| Tokenizer.Tokenizer.Consume | src/Tokenizer.php:25-36 | the offset always advances by one, and the result is the character at the new offset |
| Tokenizer.Tokenizer.Rewind | src/Tokenizer.php:43-48 | the offset steps back by one only when it is positive |
| Tokenizer.Tokenizer.Raw | src/Tokenizer.php:56-59 | the character at the offset, or `null` when the offset is outside the source |
| Tokenizer.FirstConsume | src/Tokenizer.php:25-36 | the first consume returns the first character, `%04X`-formatted, or `null` for an empty source |
| Tokenizer.RewindRepeats | src/Tokenizer.php:43-48 | consume, rewind and consume returns the same character twice |
| Tokenizer.OverrunNeedsMoreRewinds | src/Tokenizer.php:27-48 | consuming past the end keeps advancing the offset, so one rewind does not bring the last character back |
| RegexTrie.ZeroPad | bin/generate-unicode-regex.php:24-28 | `n` zero bytes in front of the input |
| RegexTrie.Pad4 | bin/generate-unicode-regex.php:24-28 | up to four bytes are left-padded with zeros to exactly four |
| RegexTrie.PadBytes | bin/generate-unicode-regex.php:24-28 | the padding loop computes the four-byte padding |
| RegexTrie.Path | bin/generate-unicode-regex.php:18-28 | a codepoint's path is four bytes |
| RegexTrie.PathShape | bin/generate-unicode-regex.php:18-28 | ASCII is `00 00 00 cp`, a two-byte codepoint starts `00 00` with a lead byte of at least C2, a three-byte one starts `00`, and a four-byte one starts with its lead byte; from 0x80 upwards the third byte is non-zero |
| RegexTrie.PathKey | bin/generate-unicode-regex.php:18-28 | the numeric value of a path, per encoding length |
| RegexTrie.PathOrder | bin/generate-unicode-regex.php:14-28 | paths are strictly increasing in the codepoint, so sorted input builds an ordered trie |
| RegexTrie.KeyBand | bin/generate-unicode-regex.php:14-28 | the padded paths of one-, two-, three- and four-byte codepoints lie in disjoint, increasing bands |
| RegexTrie.PathAtMost | bin/generate-unicode-regex.php:14-28 | paths are monotone in the codepoint |
| RegexTrie.InsertLeaf | bin/generate-unicode-regex.php:30-42 | insertion appends the fourth byte to exactly the leaf on the path |
| RegexTrie.InsertContains | bin/generate-unicode-regex.php:30-42 | after insertion the trie holds exactly the old paths and the new one |
| RegexTrie.InsertFilled | bin/generate-unicode-regex.php:30-42 | insertion keeps every level non-empty with byte keys |
| RegexTrie.InsertOrdered | bin/generate-unicode-regex.php:30-42 | insertion of a path no smaller than any present keeps keys increasing at every level |
| RegexTrie.BuildTrie | bin/generate-unicode-regex.php:17-43 | the trie holds exactly the paths of the input codepoints, is well-formed, and is ordered when the input is sorted |
| RegexText.StripNul | bin/generate-unicode-regex.php:77 | removes leading `\x00` atoms: the result is a suffix that does not start with one |
| RegexText.StripOne | bin/generate-unicode-regex.php:77 | a leading `\x00` atom is removed with the rest stripped in turn; any other leading byte stops the removal |
| RegexText.ReadHex | bin/generate-unicode-regex.php:69-75 | splits off the longest run of hex digits |
| RegexText.Atoms | bin/generate-unicode-regex.php:69-77 | every expression keeps at least two atoms after the leading `\x00` are removed |
| RegexText.FormatAtoms | bin/generate-unicode-regex.php:69-77 | an expression reads back as four, three or two atoms: the bytes left after the leading zero bytes are removed, a third byte 0 included |
| RegexText.ParseFormat | bin/generate-unicode-regex.php:69-77 | every expression written reads back as the byte range it was written from |
| RegexText.FormatInjective | bin/generate-unicode-regex.php:69-77 | distinct ranges give distinct expressions |
| RegexGen.AllCodepoints | bin/generate-unicode-regex.php:7-12 | every codepoint of every hexcode, and nothing else |
| RegexGen.CollectCodepoints | bin/generate-unicode-regex.php:7-12 | the nested loop collects the codepoints |
| RegexGen.InsertSorted | bin/generate-unicode-regex.php:14 | one insertion keeps the list sorted and adds the element |
| RegexGen.Sort | bin/generate-unicode-regex.php:14 | sorted, and a permutation of the input |
| RegexGen.Least | bin/generate-unicode-regex.php:60-62 | an element no larger than any other |
| RegexGen.Greatest | bin/generate-unicode-regex.php:60-63 | an element no smaller than any other |
| RegexGen.SortedEnds | bin/generate-unicode-regex.php:60-66 | after the sort, `array_shift` takes the least fourth byte and `array_pop` the greatest |
| RegexGen.Fold | bin/generate-unicode-regex.php:52-89 | the run state after the third-byte loop has a start and a non-empty list of fourth bytes, and every range it closed carries the group's first two bytes and is a byte range |
| RegexGen.GroupRanges | bin/generate-unicode-regex.php:46-110 | a group yields at least one range exactly when it has third bytes, and all are byte ranges |
| RegexGen.FoldKeeps | bin/generate-unicode-regex.php:52-89 | the loop's invariant: every fourth byte seen from the current start is covered by a closed range or the open run |
| RegexGen.GroupCovers | bin/generate-unicode-regex.php:52-109 | every path of the group from its start onwards is covered by some range |
| RegexGen.GroupSkipsZero | bin/generate-unicode-regex.php:53 | when a group has a zero third byte and another after it, no range covers third byte zero, because `!$first` is true again at the second entry |
| RegexGen.Formats | bin/generate-unicode-regex.php:69-78 | one expression per range, each reading back as its range |
| RegexGen.FormatsParse | bin/generate-unicode-regex.php:69-78 | every expression reads back as its range |
| RegexGen.ConcatSnoc | bin/generate-unicode-regex.php:46-111 | the expression list grows group by group |
| RegexGen.SecondsRanges | bin/generate-unicode-regex.php:48-110 | the ranges of one first byte are byte ranges |
| RegexGen.TrieRanges | bin/generate-unicode-regex.php:46-111 | the ranges of the whole trie are byte ranges |
| RegexGen.TrieSource | bin/generate-unicode-regex.php:46-111 | every range comes from one second-level group |
| RegexGen.TrieIncludes | bin/generate-unicode-regex.php:46-111 | every range of every group is in the output |
| RegexGen.SecondEntryTwoByte | bin/generate-unicode-regex.php:53 | a non-zero third byte under `00 00` means a two-byte codepoint is in the input |
| RegexGen.CoveredWhenKept | bin/generate-unicode-regex.php:46-110 | every collected codepoint from 0x80 up, and ASCII when no two-byte codepoint is present, has its padded bytes spanned by a range |
| RegexGen.DroppedWhenShared | bin/generate-unicode-regex.php:53-57 | no range spans an ASCII codepoint when a two-byte codepoint is present |
| RegexGen.SpanCoverage | bin/generate-unicode-regex.php:4-110 | a collected codepoint's padded bytes are spanned exactly when it is at least 0x80 or no two-byte codepoint was collected |
| RegexGen.FormatAccepts | bin/generate-unicode-regex.php:69-77 | an expression, read as PCRE reads it, matches the UTF-8 bytes of a codepoint exactly when the codepoint is at least 0x80 and its range spans the padded bytes |
| RegexGen.AtomsTwo | bin/generate-unicode-regex.php:69-77 | a two-byte codepoint is matched by the two atoms of a `00 00` range spanning it, and by no other shape |
| RegexGen.AtomsThree | bin/generate-unicode-regex.php:69-77 | a three-byte codepoint is matched by the three atoms of a `00` range spanning it, and by no other shape |
| RegexGen.AtomsFour | bin/generate-unicode-regex.php:69-77 | a four-byte codepoint is matched by the four atoms of a range spanning it, and by no other shape |
| RegexGen.FormatsMatch | bin/generate-unicode-regex.php:69-78 | the written expressions match a codepoint exactly when it is at least 0x80 and some range spans it |
| RegexGen.SpannedMatched | bin/generate-unicode-regex.php:69-78 | a spanned codepoint from 0x80 up is matched by the expression of its range |
| RegexGen.FormatsSource | bin/generate-unicode-regex.php:69-78 | every expression is the format of some range |
| RegexGen.Coverage | bin/generate-unicode-regex.php:4-110 | a collected codepoint is matched by the written pattern exactly when it is at least 0x80 |
| RegexGen.AsciiAlternative | bin/generate-unicode-regex.php:73-77 | the ASCII range of `#` is written `\x0\x23`, which matches NUL then `#` and not `#` alone |
| RegexGen.Emit | bin/generate-unicode-regex.php:91-109 | the expression written at the end of a group is the format of the range the open run closes |
| RegexGen.Advance | bin/generate-unicode-regex.php:53-88 | one iteration of the third-byte loop performs the step function |
| RegexGen.AppendAll | bin/generate-unicode-regex.php:86-88 | the fourth bytes are appended in order |
| RegexGen.CompressGroup | bin/generate-unicode-regex.php:49-109 | the expressions of one second-level group are the formats of its ranges |
| RegexGen.CompressSeconds | bin/generate-unicode-regex.php:48-110 | the expressions under one first byte are the formats of its ranges |
| RegexGen.BuildExpressions | bin/generate-unicode-regex.php:46-111 | the expression list is the formats of the trie's ranges |
| RegexGen.SecondsSnoc | bin/generate-unicode-regex.php:48-110 | one more second byte adds its group's ranges |
| RegexGen.TrieSnoc | bin/generate-unicode-regex.php:47-111 | one more first byte adds its ranges |
| RegexGen.Generate | bin/generate-unicode-regex.php:4-114 | the file holds the pattern of the formatted ranges; a collected codepoint is spanned exactly when it is at least 0x80 or no two-byte codepoint was collected, and matched by the written pattern exactly when it is at least 0x80 |
| ShortcodeGen.ReplaceChar | bin/generate-shortcodes-array.php:14 | replacing one character by another works character by character |
| ShortcodeGen.Normalize | bin/generate-shortcodes-array.php:12-15 | same length; no `-` and no upper case remain; `-` becomes `_`; other characters are kept |
| ShortcodeGen.NormalizeIdempotent | bin/generate-shortcodes-array.php:12-15 | normalising twice is normalising once |
| ShortcodeGen.NormalizeMerges | bin/generate-shortcodes-array.php:45 | names that differ only in case or in `-` against `_` count as the same existing shortcode |
| ShortcodeGen.Existing | bin/generate-shortcodes-array.php:30 | the normalised keys of the existing list, in order |
| ShortcodeGen.MergePreset | bin/generate-shortcodes-array.php:30-51 | the nested loop computes the merge of the list with the preset's shortcodes |
| ShortcodeGen.PutExtends | bin/generate-shortcodes-array.php:49 | adding a name that is not already present keeps the existing list as an untouched prefix |
| ShortcodeGen.AddNamesExtends | bin/generate-shortcodes-array.php:44-50 | one emoji's names keep the existing list as an untouched prefix |
| ShortcodeGen.MergeExtends | bin/generate-shortcodes-array.php:30-51 | the existing entries stay first, unchanged, and every added key is new after normalisation |
| ShortcodeGen.MergeDistinct | bin/generate-shortcodes-array.php:49 | the merged list has distinct names |
| ShortcodeGen.AddNamesDistinct | bin/generate-shortcodes-array.php:44-50 | one emoji's names keep names distinct |
| ShortcodeGen.AddNamesHit | bin/generate-shortcodes-array.php:44-50 | a new offered name maps to the emoji's hexcode |
| ShortcodeGen.AddNamesMiss | bin/generate-shortcodes-array.php:44-50 | a name not offered keeps its entry |
| ShortcodeGen.OffersPrefix | bin/generate-shortcodes-array.php:33-44 | whether an emoji offers a name depends only on that emoji |
| ShortcodeGen.MergeLastWins | bin/generate-shortcodes-array.php:32-51 | a name offered by several emoji maps to the hexcode of the last one |
| ShortcodeGen.MergeHit | bin/generate-shortcodes-array.php:32-51 | the last emoji merged gets every name it offers that the existing table does not hold |
| ShortcodeGen.MergeMiss | bin/generate-shortcodes-array.php:32-51 | a name the last emoji merged does not offer keeps its earlier value |
| ShortcodeGen.MergeUnoffered | bin/generate-shortcodes-array.php:32-51 | a name that no accepted emoji offers keeps its entry |
| ShortcodeGen.OfLength | bin/generate-shortcodes-array.php:54 | exactly the entries with hexcodes of a given length |
| ShortcodeGen.PlaceOrdered | bin/generate-shortcodes-array.php:54 | inserting an entry keeps the longest-first order and adds it |
| ShortcodeGen.PlaceLength | bin/generate-shortcodes-array.php:54 | an inserted entry goes in front of its equal-length entries |
| ShortcodeGen.SortByLength | bin/generate-shortcodes-array.php:53-54 | longest hexcode first, a permutation, and stable: entries of equal length keep their order |
| ShortcodeGen.Serialise | bin/generate-shortcodes-array.php:56-62 | the loop writes the file text of the entries, in order |
| ShortcodeGen.EntryReads | bin/generate-shortcodes-array.php:59 | an entry without quotes reads back from its `'name'=>'hex'` text |
| ShortcodeGen.EntriesRead | bin/generate-shortcodes-array.php:57-60 | a list of such entries reads back from their texts |
| ShortcodeGen.FileReads | bin/generate-shortcodes-array.php:56-62 | the written file reads back as the table |
| ShortcodeGen.GeneratePreset | bin/generate-shortcodes-array.php:20-62 | the written table is the merge sorted longest first, a permutation of it, and the file reads back as it when no name or hexcode contains a quote or comma |

## Left out

- Encoding detection and conversion (`mb_detect_encoding`, `mb_convert_encoding`, `unpack('N*')`, `mb_str_split`). Content is a sequence of codepoints from the start.
- The PCRE engine.
  - The emoji pattern the engine uses is modelled as the set of codepoints it matches.
  - `preg_split` with that pattern is `Matcher.Split`.
  - The generator's own pattern is read by `RegexText.Accepts`, one byte per `\x` atom, and tied to codepoints by `RegexGen.Coverage`. `RegexText.ReadHex` takes a whole run of hex digits where PCRE takes at most two; on the text the generator writes every run has one or two digits and ends at `\`, `-`, `]` or the end, so the two readings agree there.
- File reading, `require`, `json_decode` and `file_put_contents`.
  - The generators take their inputs as parameters and return the file text.
  - The shortcode generator models one preset; the five presets run the same code in turn.
- The static caches, which the model holds as fields of one `LitEmoji` object. `getRegex` only loads a file, so it is not modelled.
- Entities whose code is neither hexadecimal nor decimal digits. `dechex` of a non-numeric code, and `&#;` with an empty code, are not modelled; `Entities.Normalize` leaves such text as it is.
- Entities.Canonical: decimal codes above PHP_INT_MAX (2^63 - 1) are rewritten here as the exact hexadecimal number. In PHP such a code becomes a float, and `dechex` then throws a TypeError (PHP 8) or writes `&#x;` (PHP 7). The model has no integer bound and no error path for this.
- `mb_chr` and UTF-8 conversion of values that are not Unicode scalars. The generator requires scalar codepoints.
- PHP's loose comparisons:
  - integer-like array keys, which PHP converts to integers;
  - `in_array` without strict mode;
  - `sort` and `uasort` comparing mixed strings and numbers.

  Keys and values are compared as strings.
- `Tokenizer.Tokenizer`: `$offset` is declared `string` but holds integers; the model uses `int`. The codepoint is taken from the source directly, not through UTF-32 conversion.
- `RegexTrie.BuildTrie` builds the trie by value with nested assignments; the source walks it with a reference. The resulting array is the same.
- `RegexGen.Coverage` states, per codepoint, which collected codepoints are matched. It does not describe what else the pattern matches: the fourth-byte range of a run is the span from its least to its greatest fourth byte, which can include bytes not collected.
- `ShortcodeGen.SortByLength`: `uasort` is stable since PHP 8.0, and this stability is assumed here.
- `ShortcodeGen.Serialise` does not escape quotes, as in the source. `ShortcodeGen.FileReads` and `ShortcodeGen.GeneratePreset` state that the file reads back only for tables with no `'` or `,` in names or hexcodes.
- `RegexGen.Pattern`, `RegexGen.FileText`, `ShortcodeGen.FileText` and `ShortcodeGen.Entry` are plain text layouts with no contract of their own. What they produce is stated by `RegexGen.Generate` and `ShortcodeGen.FileReads`.
- `RegexGen.Generate` returns the ranges behind the pattern as a ghost result, since PHP has no such value.
