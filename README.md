# unicode-tools in Dafny

A model of the character-whitelist and transliteration core of the Java
library `unicode-tools`. Character sets are described as fields of
four-digit hexadecimal code points, such as "0043 0300" for C followed by a
combining grave accent. The library resolves such fields to printable
strings. It builds transliteration sets (a printable character to its
transliteration) and validation sets (a whitelist of printable characters)
from loaded character-set records. A Bean Validation validator checks
strings against a whitelist.

Java strings are sequences of UTF-16 code units (`JavaLang.UString`).
Java's `null` is `Option.None` wherever the source checks for it or passes it on; arguments the source dereferences without a check are non-null in the model, and "## Left out" lists those NullPointerException paths. A thrown exception is `Result.Err`, carrying
an `IllegalArgument` with its exact message or a `NullPointer`. The character
sets, whose fields the source's factory methods fill after construction, are
Dafny classes. So are the two mappers, which are objects in the source: the
root mapper keeps its separation char as a constant set by its constructors,
and the internal mapper has no fields. Value objects (`UTF8Codepoint`,
`UTF8SubsetItem`, `TransliterableUTF8Character`) are datatypes.

Modules, one per source class:

- `Mapper`: the root `CodePointsToUnicodeMapper`.
- `InternalMapper`: the `internal` package's mapper.
- `CharTranslator`: `CodePointsToUnicodeCharTranslator`.
- `Codepoints`: `UTF8Codepoint`.
- `SubsetItems`: `UTF8SubsetItem`.
- `TransliterableCharacters`: the root `TransliterableUTF8Character`.
- `TransliterableSets`: the root `TransliterableUTF8CharacterSet`.
- `Transliteration`: the `transliteration` package's set and character.
- `Validation`: `ValidatableUTF8CharacterSet`.
- `SubsetValidator`: `AbstractUnicodeSubsetValidator.isValid`.

The supporting modules specify the library calls the code relies on:

- `StringUtils`: Apache Commons `split` and `isBlank`.
- `UnicodeUnescaper`: Apache Commons Text `UnicodeUnescaper`.
- `JavaUtil`: `HashMap` filled by `put`.
- `JavaLang`: `int` arithmetic and `Character.isWhitespace`.
- `SetNames`: the set-name wrappers.
- `Mappable`: the loaded `MappableCharacter` and `MappableCharacterSet` records.

Where the design description and the code differ, the model follows the code:

- Validation examines one UTF-16 code unit at a time (`charAt`), not one
  user-perceived character. A whitelist entry that prints as more than one
  unit therefore never accepts a letter; `SubsetValidator.DecomposedEntryRejectsItself`
  shows it.
- The Javadoc of `asUtf8()` promises a string of length 1. A decomposed
  entry such as "0043 0300" gives two units (`Codepoints.EqualityIsTextual`).

## Model

| member | source | states |
|---|---|---|
| StringUtils.Split | src/main/java/de/egladil/web/unicode_tools/CodePointsToUnicodeMapper.java:59 | the tokens of a split are never empty and never hold the separator (`StringUtils.split` drops empty tokens) |
| StringUtils.SplitKeepsAllButSeparators | src/main/java/de/egladil/web/unicode_tools/CodePointsToUnicodeMapper.java:59 | the tokens, concatenated, are the input with every separator removed: nothing but separators is lost |
| StringUtils.SplitJoin | src/main/java/de/egladil/web/unicode_tools/CodePointsToUnicodeMapper.java:59 | splitting tokens joined by the separator gives back those tokens (split inverts join) |
| StringUtils.SplitTrailingSeparator | src/main/java/de/egladil/web/unicode_tools/CodePointsToUnicodeMapper.java:59 | a trailing separator adds no token |
| StringUtils.SplitOne | src/main/java/de/egladil/web/unicode_tools/CodePointsToUnicodeMapper.java:59 | a non-empty field without separator is one token |
| StringUtils.SplitTwo | src/main/java/de/egladil/web/unicode_tools/CodePointsToUnicodeMapper.java:59 | two non-empty separator-free tokens joined by one separator split back into exactly those two |
| UnicodeUnescaper.HexRoundTrip | src/main/java/de/egladil/web/unicode_tools/CodePointsToUnicodeCharTranslator.java:50 | reading back the four hexadecimal digits written for a code unit gives that unit |
| UnicodeUnescaper.Unescape | src/main/java/de/egladil/web/unicode_tools/CodePointsToUnicodeCharTranslator.java:50 | unescaping never lengthens a string and leaves a string without backslash unchanged |
| Mapper.CodePointsToUnicodeMapper.constructor | src/main/java/de/egladil/web/unicode_tools/CodePointsToUnicodeMapper.java:44-46 | the no-argument mapper splits at the blank, `UnicodeCodePointsProvider.DEFAULT_SEPARATION_CHAR` |
| Mapper.CodePointsToUnicodeMapper.WithSeparationChar | src/main/java/de/egladil/web/unicode_tools/CodePointsToUnicodeMapper.java:51-54 | the mapper keeps the given separator; it is a constant, so `apply` cannot change it |
| Mapper.CodePointsToUnicodeMapper.Apply | src/main/java/de/egladil/web/unicode_tools/CodePointsToUnicodeMapper.java:57-67 | the output is `\u` followed by each token, in input order, and nothing else; the buffer loop keeps that for the tokens seen so far |
| Mapper.EscapedAppend | src/main/java/de/egladil/web/unicode_tools/CodePointsToUnicodeMapper.java:61-66 | appending one token to the list appends `\u` and that token to the output |
| Mapper.EscapedConcatLength | src/main/java/de/egladil/web/unicode_tools/CodePointsToUnicodeMapper.java:61-66 | the output length is the tokens' total length plus two per token |
| Mapper.MapperOutputLength | src/main/java/de/egladil/web/unicode_tools/CodePointsToUnicodeMapper.java:57-67 | the output holds every non-separator unit of the input plus two per token: adjacent, leading or trailing separators add no empty entry |
| Mapper.UnescapeEscaped | src/main/java/de/egladil/web/unicode_tools/CodePointsToUnicodeCharTranslator.java:47-50 | unescaping the output of four-digit tokens gives one code unit per token, in order, holding the token's hexadecimal value |
| Mapper.EscapedTwo | src/main/java/de/egladil/web/unicode_tools/CodePointsToUnicodeMapper.java:61-66 | two tokens map to `\u`, the first, `\u`, the second |
| Mapper.MapsBlankSeparatedField | src/test/java/de/egladil/web/unicode_tools/CodePointsToUnicodeMapperTest.java:41-52 | "0054 0308" with the default separator maps to `\u0054\u0308` |
| Mapper.MapsSemicolonSeparatedField | src/test/java/de/egladil/web/unicode_tools/CodePointsToUnicodeMapperTest.java:55-66 | "0054;0308" split at ';' maps to the same `\u0054\u0308` |
| CharTranslator.Apply | src/main/java/de/egladil/web/unicode_tools/CodePointsToUnicodeCharTranslator.java:41-50 | a null provider fails with "codePointsProvider must not be null"; for a field of four-digit tokens the result has one code unit per token, in token order, holding the token's value (other tokens: see "## Left out") |
| CharTranslator.AgreesWithUtf8 | src/main/java/de/egladil/web/unicode_tools/CodePointsToUnicodeCharTranslator.java:41-50 | the translator and `UTF8Codepoint.utf8()` resolve the same field and separator to the same string |
| CharTranslator.TwoTokensTranslate | src/main/java/de/egladil/web/unicode_tools/CodePointsToUnicodeCharTranslator.java:41-50 | a field of two four-digit tokens resolves to exactly the two code units they name |
| CharTranslator.DecomposedTStaysTwoUnits | src/test/java/de/egladil/web/unicode_tools/CodePointsToUnicodeCharTranslatorTest.java:60-87 | "0054 0308" resolves to U+0054 followed by U+0308: two units, not composed |
| Codepoints.NewWithSeparator | src/main/java/de/egladil/web/unicode_tools/UTF8Codepoint.java:53-56 | fails with "codePoints must not be null" exactly for a null field; otherwise the getters return the arguments |
| Codepoints.New | src/main/java/de/egladil/web/unicode_tools/UTF8Codepoint.java:46-49 | the one-argument constructor uses the blank as separator |
| Codepoints.UTF8Codepoint.Utf8 | src/main/java/de/egladil/web/unicode_tools/UTF8Codepoint.java:71-77 | for four-digit tokens, one code unit per token, in token order, holding the token's value |
| Codepoints.UTF8Codepoint.Equals | src/main/java/de/egladil/web/unicode_tools/UTF8Codepoint.java:95-118 | true iff the argument is a `UTF8Codepoint` with the same field and the same separator; false for null and other classes |
| Codepoints.UTF8Codepoint.ToString | src/main/java/de/egladil/web/unicode_tools/UTF8Codepoint.java:121-123 | the text is "UTF8Codepoint [utf8=", the printable form, ", codePoints=", the field and "]" |
| Codepoints.UTF8Codepoint.HashCode | src/main/java/de/egladil/web/unicode_tools/UTF8Codepoint.java:86-93 | the hash is a Java `int` (32-bit range); `Codepoints.HashCodeAgreesWithEquals` ties it to `equals` |
| Codepoints.EqualsIsEquivalence | src/main/java/de/egladil/web/unicode_tools/UTF8Codepoint.java:95-118 | `equals` is reflexive, symmetric and transitive |
| Codepoints.HashCodeAgreesWithEquals | src/main/java/de/egladil/web/unicode_tools/UTF8Codepoint.java:86-93 | equal code points have equal hash codes |
| Codepoints.OneTokenPrints | src/main/java/de/egladil/web/unicode_tools/UTF8Codepoint.java:71-77 | a one-token field prints as the single code unit it names |
| Codepoints.TwoTokensPrint | src/main/java/de/egladil/web/unicode_tools/UTF8Codepoint.java:71-77 | a two-token field prints as the two code units they name, in order, whatever the separator |
| Codepoints.DecomposedCPrints | src/main/java/de/egladil/web/unicode_tools/UTF8Codepoint.java:71-77 | "0043" and "0300" joined by any separator other than their digits print as C followed by U+0300 |
| Codepoints.EqualityIsTextual | src/main/java/de/egladil/web/unicode_tools/UTF8Codepoint.java:95-118 | "0043 0300" with a blank and "0043,0300" with a comma print alike but are not equal |
| Codepoints.ToStringOfDecomposedC | src/test/java/de/egladil/web/unicode_tools/UTF8CodepointTest.java:60-61 | "0043 0300" prints as C with combining grave accent inside its `toString` |
| Codepoints.SingleTokenPrintsOneUnit | src/test/java/de/egladil/web/unicode_tools/transliteration/TransliterableUTF8CharacterTest.java:137-148 | "0043" prints as C |
| InternalMapper.CodePointsToUnicodeMapper.Apply | src/main/java/de/egladil/web/unicode_tools/internal/CodePointsToUnicodeMapper.java:43-56 | null fails with "utf8CodePoint must not be null"; otherwise `\u` and each token of the field split at the code point's own separator, in order |
| InternalMapper.AgreesWithRootMapper | src/main/java/de/egladil/web/unicode_tools/internal/CodePointsToUnicodeMapper.java:49-56 | the result equals the root mapper built with the code point's separator, applied to its field |
| InternalMapper.MapsSingleToken | src/test/java/de/egladil/web/unicode_tools/internal/CodePointsToUnicodeMapperTest.java:52-64 | "0056" maps to `\u0056` |
| InternalMapper.MapsTwoTokens | src/test/java/de/egladil/web/unicode_tools/internal/CodePointsToUnicodeMapperTest.java:67-79 | "0047 0300" maps to `\u0047\u0300` |
| SubsetItems.New | src/main/java/de/egladil/web/unicode_tools/UTF8SubsetItem.java:40-45 | fails with "utf8Codepoint must not be null" exactly for a null origin; the item has no mapping |
| SubsetItems.NewWithMapping | src/main/java/de/egladil/web/unicode_tools/UTF8SubsetItem.java:50-58 | the origin is checked first, then "mapping must not be null"; a built item is transliterable |
| SubsetItems.UTF8SubsetItem.MappingAsPrintableCharacter | src/main/java/de/egladil/web/unicode_tools/UTF8SubsetItem.java:85-90 | null iff the item is not transliterable, else the mapping's printable form |
| SubsetItems.UTF8SubsetItem.Equals | src/main/java/de/egladil/web/unicode_tools/UTF8SubsetItem.java:107-127 | true iff the argument is an item with an equal origin, whatever the mappings |
| SubsetItems.UTF8SubsetItem.HashCode | src/main/java/de/egladil/web/unicode_tools/UTF8SubsetItem.java:99-105 | the hash is a Java `int` (32-bit range); `SubsetItems.HashCodeAgreesWithEquals` ties it to `equals` |
| SubsetItems.UTF8SubsetItem.ToString | src/main/java/de/egladil/web/unicode_tools/UTF8SubsetItem.java:129-132 | "UTF8SubsetItem [", the origin's `toString`, ", printed as ", the origin's printable form and "]"; the mapping is not shown |
| SubsetItems.EqualityIgnoresMapping | src/main/java/de/egladil/web/unicode_tools/UTF8SubsetItem.java:107-127 | two items with the same origin and different mappings are equal |
| SubsetItems.HashCodeAgreesWithEquals | src/main/java/de/egladil/web/unicode_tools/UTF8SubsetItem.java:99-105 | equal items have equal hash codes |
| TransliterableCharacters.New | src/main/java/de/egladil/web/unicode_tools/TransliterableUTF8Character.java:44-47 | "originalCodepoint must not be null" first, then "transliteradedCodepoint must not be null"; otherwise the getters return the arguments |
| TransliterableCharacters.TransliterationLookup | src/main/java/de/egladil/web/unicode_tools/TransliterableUTF8CharacterSet.java:60-68 | the map built from the items holds a value for a printable character iff some item prints as it, and that value is the transliteration of such an item |
| TransliterableCharacters.TransliterationLookupLastWins | src/main/java/de/egladil/web/unicode_tools/TransliterableUTF8CharacterSet.java:60-68 | when several items print alike, the later `put` wins: the value is the transliteration of the last such item |
| JavaUtil.PutAllKeys | src/main/java/de/egladil/web/unicode_tools/TransliterableUTF8CharacterSet.java:60-67 | the keys of a map filled by `put` are exactly the entries' keys |
| JavaUtil.PutAllLastWins | src/main/java/de/egladil/web/unicode_tools/TransliterableUTF8CharacterSet.java:60-67 | on a repeated key the later `put` wins, and no value is null |
| JavaUtil.GetAfterPutAll | src/main/java/de/egladil/web/unicode_tools/TransliterableUTF8CharacterSet.java:87-90 | `get` on the filled map finds a value iff some entry has the key, and that value comes from such an entry |
| SetNames.New | src/test/java/de/egladil/web/unicode_tools/UTF8SubsetSetIdTest.java:39-59 | a null or blank name fails with "name must not be blank"; otherwise the name is kept |
| TransliterableSets.TransliterableUTF8CharacterSet.constructor | src/main/java/de/egladil/web/unicode_tools/TransliterableUTF8CharacterSet.java:49-53 | a new set has the name, no items and an empty map |
| TransliterableSets.TransliterableUTF8CharacterSet.WithItems | src/main/java/de/egladil/web/unicode_tools/TransliterableUTF8CharacterSet.java:55-71 | a fresh set with the starting set's name, the given items, and the map filled by `put` in item order |
| TransliterableSets.TransliterableUTF8CharacterSet.WithItemsAndTransliterations | src/main/java/de/egladil/web/unicode_tools/TransliterableUTF8CharacterSet.java:73-85 | a fresh set with the starting set's name and the given items and map, unchecked |
| TransliterableSets.TransliterableUTF8CharacterSet.PrintableTransliteratedCharacter | src/main/java/de/egladil/web/unicode_tools/TransliterableUTF8CharacterSet.java:87-90 | a value is found only for a valid printable character, and it is the value the map holds for it (possibly null) |
| TransliterableSets.TransliterableUTF8CharacterSet.IsValid | src/main/java/de/egladil/web/unicode_tools/TransliterableUTF8CharacterSet.java:97-100 | true iff the printable character is non-null and a key of the map, also when its value is null |
| TransliterableSets.TransliterableUTF8CharacterSet.IsValidCodepoint | src/main/java/de/egladil/web/unicode_tools/TransliterableUTF8CharacterSet.java:102-110 | false for null, else true iff some item's original equals the code point |
| TransliterableSets.FindOriginal | src/main/java/de/egladil/web/unicode_tools/TransliterableUTF8CharacterSet.java:108-109 | the index found is the first item whose original equals the code point; none iff no item's does |
| TransliterableSets.FreshSetAcceptsNothing | src/main/java/de/egladil/web/unicode_tools/TransliterableUTF8CharacterSet.java:49-53 | a freshly constructed set rejects every printable character and code point and transliterates nothing |
| TransliterableSets.LookupAfterWithItems | src/main/java/de/egladil/web/unicode_tools/TransliterableUTF8CharacterSet.java:87-100 | after `withItems`, `isValid` holds iff some item prints as the string, and the lookup gives the transliteration of the last such item |
| Transliteration.CharacterFrom | src/test/java/de/egladil/web/unicode_tools/transliteration/TransliterableUTF8CharacterTest.java:42-114 | a null provider fails with "provider must not be null", a null code-point or mapping field with "codePoints must not be null"; otherwise both code points use the provider's separator |
| Transliteration.FromError | src/main/java/de/egladil/web/unicode_tools/transliteration/TransliterableUTF8CharacterSet.java:82-93 | no error iff provider, item list and name are non-null and the name is not blank; the provider message comes first, then the item-list message, then the name message |
| Transliteration.DecomposedCTransliteratesToC | src/test/java/de/egladil/web/unicode_tools/transliteration/TransliterableUTF8CharacterTest.java:116-150 | "0043 0300" with mapping "0043" prints as C with grave accent and transliterates to C |
| Transliteration.LoadAsWrittenThrowsOnNullEntry | src/main/java/de/egladil/web/unicode_tools/transliteration/TransliterableUTF8CharacterSet.java:97-109 | the loop as written throws a NullPointerException iff the list holds a null entry, and otherwise keeps what skipping keeps |
| Transliteration.LoadAsWritten | src/main/java/de/egladil/web/unicode_tools/transliteration/TransliterableUTF8CharacterSet.java:97-109 | the loop as written fails iff the list holds a null entry, always with a `NullPointerException`, and never yields more items than entries |
| Transliteration.NullEntryAbortsLoad | src/main/java/de/egladil/web/unicode_tools/transliteration/TransliterableUTF8CharacterSet.java:99-104 | one null entry: the loop as written throws where skipping gives an empty list |
| Transliteration.KeptAtMostEntries | src/main/java/de/egladil/web/unicode_tools/transliteration/TransliterableUTF8CharacterSet.java:97-109 | the loader never yields more items than the provider has entries |
| Transliteration.KeptExactlyBuilt | src/main/java/de/egladil/web/unicode_tools/transliteration/TransliterableUTF8CharacterSet.java:97-109 | a character is kept iff some entry builds it: nothing invented, nothing dropped |
| Transliteration.KeptAllWhenAllBuildable | src/main/java/de/egladil/web/unicode_tools/transliteration/TransliterableUTF8CharacterSet.java:97-109 | when every entry is buildable, every entry is kept, in order |
| Transliteration.FirstMissing | src/main/java/de/egladil/web/unicode_tools/transliteration/TransliterableUTF8CharacterSet.java:168-172 | the index found is the first key without a non-null value; none iff every key has one |
| Transliteration.FirstMissingAt | src/main/java/de/egladil/web/unicode_tools/transliteration/TransliterableUTF8CharacterSet.java:168-172 | the first key without a value after a run of keys that all have one is the index reported |
| Transliteration.MissingMessageNamesItem | src/main/java/de/egladil/web/unicode_tools/transliteration/TransliterableUTF8CharacterSet.java:170 | "transliteration for ", the item's original code point as `toString` gives it, and " is missing" |
| Transliteration.CustomErrorCases | src/main/java/de/egladil/web/unicode_tools/transliteration/TransliterableUTF8CharacterSet.java:164-172 | no error iff the sizes agree and every item's printable original has a non-null value; a size mismatch gives the size message; otherwise the message names the first item without a value |
| Transliteration.CheckCustomTransliterations | src/main/java/de/egladil/web/unicode_tools/transliteration/TransliterableUTF8CharacterSet.java:164-172 | the size check comes first, then "transliteration for <code point> is missing" for the first item without value; no error means every item has a value |
| Transliteration.CoverExactly | src/main/java/de/egladil/web/unicode_tools/transliteration/TransliterableUTF8CharacterSet.java:164-172 | for distinct keys, same size plus a value for each key holds iff the map's keys are exactly those keys, none mapped to null |
| Transliteration.CustomMapMustCoverItemsExactly | src/main/java/de/egladil/web/unicode_tools/transliteration/TransliterableUTF8CharacterSet.java:164-172 | for items with distinct printable originals, the checks pass iff the map's keys are exactly those originals and no value is null |
| Transliteration.DuplicateOriginsFailSizeCheck | src/main/java/de/egladil/web/unicode_tools/transliteration/TransliterableUTF8CharacterSet.java:164-166 | two items printing alike and a map covering both still fail the size check |
| Transliteration.MissingMessageOfDecomposedC | src/test/java/de/egladil/web/unicode_tools/transliteration/TransliterableUTF8CharacterSetTest.java:215-238 | the missing-transliteration message for "0043 0300" embeds that code point's `toString` |
| Transliteration.TransliterableUTF8CharacterSet.Init | src/main/java/de/egladil/web/unicode_tools/transliteration/TransliterableUTF8CharacterSet.java:69-71 | a new set has the name, no items and an empty map |
| Transliteration.TransliterableUTF8CharacterSet.Create | src/main/java/de/egladil/web/unicode_tools/transliteration/TransliterableUTF8CharacterSet.java:63-72 | a null name fails with "name must not be null"; otherwise the set is empty |
| Transliteration.TransliterableUTF8CharacterSet.From | src/main/java/de/egladil/web/unicode_tools/transliteration/TransliterableUTF8CharacterSet.java:82-112 | provider, item list and name are checked in that order; the set holds the kept items and the map built from them |
| Transliteration.TransliterableUTF8CharacterSet.WithItems | src/main/java/de/egladil/web/unicode_tools/transliteration/TransliterableUTF8CharacterSet.java:124-140 | a fresh set with the starting set's name, the given items, and the map filled by `put` in item order |
| Transliteration.TransliterableUTF8CharacterSet.WithCustomTransliterations | src/main/java/de/egladil/web/unicode_tools/transliteration/TransliterableUTF8CharacterSet.java:155-176 | a null map fails first, then the `from` errors, then the custom checks; on success the given map replaces the computed one |
| Transliteration.TransliterableUTF8CharacterSet.PrintableTransliteratedCharacter | src/main/java/de/egladil/web/unicode_tools/transliteration/TransliterableUTF8CharacterSet.java:178-181 | null for a null argument; otherwise the value the map holds for the character, null when it is no key |
| Transliteration.LoadAndLookup | src/main/java/de/egladil/web/unicode_tools/transliteration/TransliterableUTF8CharacterSet.java:178-193 | after `from`, `size()` is at most the number of entries, and the lookup succeeds iff some kept item prints as the string |
| Validation.MapCodepoints | src/main/java/de/egladil/web/unicode_tools/validation/ValidatableUTF8CharacterSet.java:66-72 | the load succeeds iff every entry and its field are non-null; then every entry becomes `UTF8Codepoint(codePoint, separationChar)`, same count and order |
| Validation.MapCodepointsFirstFailure | src/main/java/de/egladil/web/unicode_tools/validation/ValidatableUTF8CharacterSet.java:66-72 | a failed load fails at the first null entry (`NullPointerException`) or first null field ("codePoints must not be null") |
| Validation.FromError | src/main/java/de/egladil/web/unicode_tools/validation/ValidatableUTF8CharacterSet.java:53-64 | no error iff the set, its item list and its name are non-null and the name is not blank; the set message comes first, then the item-list message, then the name message |
| Validation.AnyPrints | src/main/java/de/egladil/web/unicode_tools/validation/ValidatableUTF8CharacterSet.java:97-98 | true iff some item prints as the string |
| Validation.Contains | src/main/java/de/egladil/web/unicode_tools/validation/ValidatableUTF8CharacterSet.java:102-104 | `List.contains` through `equals` is membership |
| Validation.ValidatableUTF8CharacterSet.Init | src/main/java/de/egladil/web/unicode_tools/validation/ValidatableUTF8CharacterSet.java:86-87 | a new set has the name and no items |
| Validation.ValidatableUTF8CharacterSet.Create | src/main/java/de/egladil/web/unicode_tools/validation/ValidatableUTF8CharacterSet.java:81-88 | a null name fails with "name must not be null"; otherwise the set is empty |
| Validation.ValidatableUTF8CharacterSet.From | src/main/java/de/egladil/web/unicode_tools/validation/ValidatableUTF8CharacterSet.java:53-76 | set, item list and name are checked in that order, then the entries are mapped; the set holds the mapped code points |
| Validation.ValidatableUTF8CharacterSet.IsPrintableCharacterValid | src/main/java/de/egladil/web/unicode_tools/validation/ValidatableUTF8CharacterSet.java:91-99 | true for null or empty input, else iff some item prints as the string |
| Validation.ValidatableUTF8CharacterSet.IsUTF8CodepointValid | src/main/java/de/egladil/web/unicode_tools/validation/ValidatableUTF8CharacterSet.java:102-104 | true iff the code point is not null and some item equals it |
| SubsetValidator.ConstraintContext.constructor | src/main/java/de/egladil/web/unicode_tools/validation/AbstractUnicodeSubsetValidator.java:94-95 | a context starts with the default violation enabled and no violations |
| SubsetValidator.CollectRejected | src/main/java/de/egladil/web/unicode_tools/validation/AbstractUnicodeSubsetValidator.java:79-87 | the collected set is exactly the one-unit strings of the input that the whitelist rejects |
| SubsetValidator.IsValid | src/main/java/de/egladil/web/unicode_tools/validation/AbstractUnicodeSubsetValidator.java:58-101 | null and blank pass and other classes fail before the whitelist is used; then valid iff no letter is rejected, and a rejection disables the default violation and adds one listing the rejected letters |
| SubsetValidator.NoneRejectedIffEveryUnitListed | src/main/java/de/egladil/web/unicode_tools/validation/AbstractUnicodeSubsetValidator.java:79-100 | a string passes iff each of its code units, alone, prints like some whitelist item |
| SubsetValidator.DecomposedEntryRejectsItself | src/main/java/de/egladil/web/unicode_tools/validation/AbstractUnicodeSubsetValidator.java:81-84 | a whitelist holding only "0043 0300" accepts its printable form yet rejects both units of that same string |

## Left out

- Loading the XML character-set files (JAXB, `getValidationProvider`, `DefaultUnicodeSubsetBuilder`, the JAXB beans): these are resource I/O. The loaded records are the `Mappable` datatypes, and the whitelist that `isValid` loads is a `Fallible` parameter.
- The violation message (`ResourceBundle`, `MessageFormat`, the comma-joined list in `HashSet` order) is localisation. A violation is recorded as the set of rejected letters.
- SLF4J logging of skipped entries: it has no effect on results.
- CharTranslator.Apply: a field whose tokens are not all four hexadecimal digits makes the library's unescaper throw; the model returns the text with the malformed escape copied, so `r.Ok?` for every non-null provider is stronger than the source. Only four-digit tokens are specified.
- CharTranslator.Apply: a provider whose `getCodePoints()` returns null is not representable (`CodePointsProvider.codePoints` is a string). In Java `StringUtils.split(null)` returns null and the mapper's loop throws a NullPointerException (CodePointsToUnicodeCharTranslator.java:50, CodePointsToUnicodeMapper.java:59, 62).
- Codepoints.UTF8Codepoint.Utf8: the same as for `CharTranslator.Apply`; `utf8()` throws on a token that is not four hexadecimal digits, where the model returns a string.
- Transliteration.TransliterableUTF8CharacterSet.From: a null entry in the item list is skipped, where the source throws a `NullPointerException` from its catch block (see "## Findings"). `Transliteration.LoadAsWritten` models the source's behaviour.
- Transliteration.TransliterableUTF8CharacterSet.WithCustomTransliterations: loads through `From`, so a null entry in the item list is skipped where the source throws a `NullPointerException`.
- Transliteration.LoadAndLookup: loads through `From`, so it reports a load for an item list with a null entry, where the source throws a `NullPointerException`.
- UnicodeUnescaper.Unescape: specified only for well-formed escapes of four hexadecimal digits. Any other backslash is copied, where the library may throw or decode longer forms.
- Hash codes follow Java's 32-bit arithmetic (`JavaLang.Int32`, `JavaLang.StringHash`). Literal hash values in the tests are not proved; only agreement with `equals` is.
- Mapper.CodePointsToUnicodeMapper.Apply: a null argument, which throws a NullPointerException in Java, is not representable. The same holds for the null name of the root set's constructor, which the source does not check.
- TransliterableSets.TransliterableUTF8CharacterSet.WithItems: the Java list is stored by reference. The model stores the sequence's value, so later changes to the caller's list are not reflected. Null arguments are not representable either: a null starting set, a null list and a null list element each make `withItems` throw a NullPointerException (TransliterableUTF8CharacterSet.java:58, 62, 64), while the model's set, sequence and item always exist.
- TransliterableSets.TransliterableUTF8CharacterSet.WithItemsAndTransliterations: the Java set keeps the caller's item list and transliteration map by reference. The model stores their values, so later changes to the caller's list or map are not reflected. Null arguments are not representable either: a null starting set throws a NullPointerException (TransliterableUTF8CharacterSet.java:77); a null list or map is stored unchecked (:78, 83), and a later `printableTransliteratedCharacter`, `isValid(String)` or `isValid(UTF8Codepoint)` throws (:89, 99, 108). In the model the list and map always exist.
- Transliteration.TransliterableUTF8CharacterSet.WithCustomTransliterations: the Java set keeps the caller's transliteration map by reference. The model stores its value, so later changes to the caller's map are not reflected.
- JavaUtil.Get: maps never hold a null key. A caller-supplied map with a null key (`withItemsAndTransliterations`, `withCustomTransliterations`) is not representable.
- `TransliterableUTF8Character` of the `transliteration` package, `UTF8SubsetSetName`, `UTF8SubsetSetId` and `TransliterableCharacterSetName` are not part of this model's sources. Their behaviour is taken from their tests, and the names' `equals`, `hashCode` and `toString` are not modelled.
- `UTF8SubsetItem.asPrintableCharacter`, `asUtf8`, `transliterated`, `name()` and `size()` are plain delegations. They are modelled as functions without contracts of their own.
- `UTF8Subset`, the `impl` package and `DefaultUnicodeStringValidator` are outside the modelled core.
- Whole-string transliteration exists only in a test scenario, and its data file is not available.
- The root package's tests call a null-name check and `size()`/`isPrintableCharacterValid` that the root set does not have. The model follows the main source.
- Grapheme-cluster segmentation is not modelled, because the code iterates per code unit.
- Stream pipelines (`filter` with `findFirst` or `findAny`, `map`/`collect`) and `List.contains` are modelled as recursive functions.
- `size()` returns `int` in Java. The model uses `nat`; lists stay far below 2^31 elements.

## Findings

| source | as written | input that shows it | evidently intended | confidence | as-written member | corrected member |
|---|---|---|---|---|---|---|
| src/main/java/de/egladil/web/unicode_tools/transliteration/TransliterableUTF8CharacterSet.java:99-107 | the catch block calls `provider.getMapping()` to choose a log message, also when `provider` is the null entry whose construction failed with "provider must not be null" | a `MappableCharacterSet` with a non-blank name and the item list `[null]` | the null entry is skipped like any other unbuildable entry, giving an empty set | medium, not executed | Transliteration.NullEntryAbortsLoad | Transliteration.KeptExactlyBuilt |
