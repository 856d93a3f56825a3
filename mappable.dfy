/**
 * The providers the character sets are built from (the `xml.mapping`
 * interfaces, filled by JAXB from the bundled character-set files).
 */
module Mappable {
  import opened Wrappers
  import opened JavaLang

  /** A `MappableCharacter`: a code-point field, an optional mapping field, and their separation char. */
  datatype MappableCharacter = MappableCharacter(codePoint: Option<UString>, mapping: Option<UString>, separationChar: CodeUnit)

  /** A `MappableCharacterSet`: a name and a list of characters; the list and each entry may be null. */
  datatype MappableCharacterSet = MappableCharacterSet(name: Option<UString>, items: Option<seq<Option<MappableCharacter>>>)
}
