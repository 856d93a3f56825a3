/**
 * `UTF8SubsetItem`: an origin code point with an optional mapping. Equality
 * and hash code look at the origin only.
 */
module SubsetItems {
  import opened Wrappers
  import opened JavaLang
  import Codepoints

  datatype UTF8SubsetItem = UTF8SubsetItem(utf8Codepoint: Codepoints.UTF8Codepoint, mapping: Option<Codepoints.UTF8Codepoint>)
  {
    /** `isTransliterable()`: a mapping was supplied. */
    predicate IsTransliterable()
    {
      mapping.Some?
    }

    /** `asPrintableCharacter()`: the origin's `utf8()`. */
    function AsPrintableCharacter(): UString
    {
      utf8Codepoint.Utf8()
    }

    /** `mappingAsPrintableCharacter()`: null without a mapping, else the mapping's `utf8()`. */
    function MappingAsPrintableCharacter(): (r: Option<UString>)
      ensures r.None? <==> !IsTransliterable()
      ensures r.Some? ==> r.value == mapping.value.Utf8()
    {
      if mapping.None? then None else Some(mapping.value.Utf8())
    }

    /** `hashCode()`: 31 + the origin's hash code, in `int` arithmetic. */
    function HashCode(): (r: int)
      ensures -0x8000_0000 <= r < 0x8000_0000
    {
      Int32(31 * 1 + utf8Codepoint.HashCode())
    }

    /** `equals(Object)`: false for null and other classes, else the origins' `equals`. */
    function Equals(obj: Option<AnyObject>): (r: bool)
      ensures r <==> obj.Some? && obj.value.ItemObject? && obj.value.item.utf8Codepoint == utf8Codepoint
    {
      match obj
      case None => false
      case Some(OtherObject) => false
      case Some(ItemObject(other)) =>
        utf8Codepoint.Equals(Some(Codepoints.CodepointObject(other.utf8Codepoint)))
    }

    /** `toString()`: the origin's `toString` and its printable form; the mapping is not shown. */
    function ToString(): (r: UString)
      ensures |r| == 16 + |utf8Codepoint.ToString()| + 13 + |AsPrintableCharacter()| + 1
      ensures r[..16] == Lit("UTF8SubsetItem [")
      ensures r[16..16 + |utf8Codepoint.ToString()|] == utf8Codepoint.ToString()
      ensures r[|r| - |AsPrintableCharacter()| - 1..] == AsPrintableCharacter() + Lit("]")
    {
      ConcatFive(Lit("UTF8SubsetItem ["), utf8Codepoint.ToString(), Lit(", printed as "), AsPrintableCharacter(), Lit("]"));
      Lit("UTF8SubsetItem [") + utf8Codepoint.ToString() + Lit(", printed as ") + AsPrintableCharacter() + Lit("]")
    }
  }

  /** The argument of `equals(Object)`: a `UTF8SubsetItem` or an object of some other class. */
  datatype AnyObject = ItemObject(item: UTF8SubsetItem) | OtherObject

  /** `new UTF8SubsetItem(utf8Codepoint)`: an item without mapping. */
  function New(utf8Codepoint: Option<Codepoints.UTF8Codepoint>): (r: Fallible<UTF8SubsetItem>)
    ensures utf8Codepoint.None? <==> r.Err?
    ensures r.Err? ==> r == IllegalArgumentError("utf8Codepoint must not be null")
    ensures r.Ok? ==> r.value.utf8Codepoint == utf8Codepoint.value && !r.value.IsTransliterable()
  {
    if utf8Codepoint.None? then IllegalArgumentError("utf8Codepoint must not be null")
    else Ok(UTF8SubsetItem(utf8Codepoint.value, None))
  }

  /** `new UTF8SubsetItem(utf8Codepoint, mapping)`: the origin is checked first, then the mapping. */
  function NewWithMapping(utf8Codepoint: Option<Codepoints.UTF8Codepoint>, mapping: Option<Codepoints.UTF8Codepoint>)
    : (r: Fallible<UTF8SubsetItem>)
    ensures utf8Codepoint.None? ==> r == IllegalArgumentError("utf8Codepoint must not be null")
    ensures utf8Codepoint.Some? && mapping.None? ==> r == IllegalArgumentError("mapping must not be null")
    ensures r.Ok? <==> utf8Codepoint.Some? && mapping.Some?
    ensures r.Ok? ==> r.value.utf8Codepoint == utf8Codepoint.value && r.value.mapping == mapping
    ensures r.Ok? ==> r.value.IsTransliterable()
  {
    var item :- New(utf8Codepoint);
    if mapping.None? then IllegalArgumentError("mapping must not be null")
    else Ok(item.(mapping := mapping))
  }

  /** Two items with the same origin are equal whatever their mappings. */
  lemma EqualityIgnoresMapping(origin: Codepoints.UTF8Codepoint, m1: Option<Codepoints.UTF8Codepoint>, m2: Option<Codepoints.UTF8Codepoint>)
    ensures UTF8SubsetItem(origin, m1).Equals(Some(ItemObject(UTF8SubsetItem(origin, m2))))
  {
  }

  /** Equal items have equal hash codes. */
  lemma HashCodeAgreesWithEquals(a: UTF8SubsetItem, b: UTF8SubsetItem)
    requires a.Equals(Some(ItemObject(b)))
    ensures a.HashCode() == b.HashCode()
  {
  }
}
