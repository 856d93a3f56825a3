/**
 * `ValidatableUTF8CharacterSet`: a named whitelist of code points, loaded
 * from a `MappableCharacterSet`, answering whether a printable character or
 * a code point belongs to it.
 */
module Validation {
  import opened Wrappers
  import opened JavaLang
  import SetNames
  import StringUtils
  import opened Codepoints
  import opened Mappable

  /**
   * The stream of `from` that maps every entry to a `UTF8Codepoint` with the
   * entry's separation char. The first entry that cannot be mapped ends the
   * load: a null entry with a `NullPointerException`, a null code-point
   * field with the `UTF8Codepoint` constructor's exception. No entry is
   * skipped.
   */
  function MapCodepoints(entries: seq<Option<MappableCharacter>>): (r: Fallible<seq<UTF8Codepoint>>)
    ensures r.Ok? <==> forall i | 0 <= i < |entries| :: entries[i].Some? && entries[i].value.codePoint.Some?
    ensures r.Ok? ==>
      && |r.value| == |entries|
      && forall i | 0 <= i < |entries| ::
           r.value[i] == UTF8Codepoint(entries[i].value.codePoint.value, entries[i].value.separationChar)
    decreases |entries|
  {
    if entries == [] then Ok([])
    else if entries[0].None? then Err(NullPointer)
    else
      var first :- NewWithSeparator(entries[0].value.codePoint, entries[0].value.separationChar);
      var rest :- MapCodepoints(entries[1..]);
      Ok([first] + rest)
  }

  /**
   * A failed load fails at the first unmappable entry: a null entry gives a
   * `NullPointerException`, a null field "codePoints must not be null".
   */
  lemma {:induction false} MapCodepointsFirstFailure(entries: seq<Option<MappableCharacter>>)
    requires MapCodepoints(entries).Err?
    ensures exists i | 0 <= i < |entries| ::
      && (forall j | 0 <= j < i :: entries[j].Some? && entries[j].value.codePoint.Some?)
      && (entries[i].None? ==> MapCodepoints(entries).error == NullPointer)
      && (entries[i].Some? ==>
            entries[i].value.codePoint.None? && MapCodepoints(entries) == IllegalArgumentError("codePoints must not be null"))
    decreases |entries|
  {
    if entries[0].Some? && entries[0].value.codePoint.Some? {
      MapCodepointsFirstFailure(entries[1..]);
      var i :| 0 <= i < |entries[1..]|
        && (forall j | 0 <= j < i :: entries[1..][j].Some? && entries[1..][j].value.codePoint.Some?)
        && (entries[1..][i].None? ==> MapCodepoints(entries[1..]).error == NullPointer)
        && (entries[1..][i].Some? ==>
              entries[1..][i].value.codePoint.None? && MapCodepoints(entries[1..]) == IllegalArgumentError("codePoints must not be null"));
      assert forall j | 0 <= j < i + 1 :: entries[j].Some? && entries[j].value.codePoint.Some?;
    }
  }

  /** The exception `from` throws before mapping, if any: the set, its item list and its name, in that order. */
  function FromError(characterSet: Option<MappableCharacterSet>): (r: Option<Exception>)
    ensures r.None? <==>
      characterSet.Some? && characterSet.value.items.Some? && characterSet.value.name.Some?
      && !StringUtils.IsBlank(characterSet.value.name.value)
    ensures characterSet.None? ==> r == Some(IllegalArgument(Lit("characterSet must not be null")))
    ensures characterSet.Some? && characterSet.value.items.None? ==>
      r == Some(IllegalArgument(Lit("characterSet.items must not be null")))
    ensures r.Some? && characterSet.Some? && characterSet.value.items.Some? ==>
      r == Some(IllegalArgument(Lit("name must not be blank")))
  {
    if characterSet.None? then Some(IllegalArgument(Lit("characterSet must not be null")))
    else if characterSet.value.items.None? then Some(IllegalArgument(Lit("characterSet.items must not be null")))
    else
      match SetNames.New(characterSet.value.name)
      case Err(e) => Some(e)
      case Ok(_) => None
  }

  /** The stream search of `isPrintableCharacterValid`: some item prints as `s`. */
  predicate AnyPrints(items: seq<UTF8Codepoint>, s: UString)
    ensures AnyPrints(items, s) <==> exists i | 0 <= i < |items| :: items[i].Utf8() == s
    decreases |items|
  {
    if items == [] then false
    else items[0].Utf8() == s || AnyPrints(items[1..], s)
  }

  /** `List.contains`: some item `equals` the code point. */
  predicate Contains(items: seq<UTF8Codepoint>, codePoint: UTF8Codepoint)
    ensures Contains(items, codePoint) <==> codePoint in items
    decreases |items|
  {
    if items == [] then false
    else codePoint.Equals(Some(CodepointObject(items[0]))) || Contains(items[1..], codePoint)
  }

  class ValidatableUTF8CharacterSet {
    const name: SetNames.SetName
    var items: seq<UTF8Codepoint>

    /** The constructor once its null check has passed: no items. */
    constructor Init(name: SetNames.SetName)
      ensures this.name == name && items == []
    {
      this.name := name;
      items := [];
    }

    /** The constructor: a null name is rejected. */
    static method Create(name: Option<SetNames.SetName>) returns (r: Fallible<ValidatableUTF8CharacterSet>)
      ensures name.None? <==> r.Err?
      ensures r.Err? ==> r == IllegalArgumentError("name must not be null")
      ensures r.Ok? ==> fresh(r.value) && r.value.name == name.value && r.value.items == []
    {
      if name.None? {
        return IllegalArgumentError("name must not be null");
      }
      var s := new ValidatableUTF8CharacterSet.Init(name.value);
      r := Ok(s);
    }

    /** `from`: the checks of `FromError`, then every entry mapped to a code point. */
    static method From(characterSet: Option<MappableCharacterSet>) returns (r: Fallible<ValidatableUTF8CharacterSet>)
      ensures FromError(characterSet).Some? ==> r == Err(FromError(characterSet).value)
      ensures FromError(characterSet).None? ==>
        var mapped := MapCodepoints(characterSet.value.items.value);
        && (mapped.Err? ==> r == Err(mapped.error))
        && (mapped.Ok? ==>
              && r.Ok? && fresh(r.value)
              && r.value.name == SetNames.New(characterSet.value.name).value
              && r.value.items == mapped.value)
    {
      if characterSet.None? {
        return IllegalArgumentError("characterSet must not be null");
      }
      if characterSet.value.items.None? {
        return IllegalArgumentError("characterSet.items must not be null");
      }
      var name := SetNames.New(characterSet.value.name);
      if name.Err? {
        return Err(name.error);
      }
      var result := new ValidatableUTF8CharacterSet.Init(name.value);
      var mappedItems := MapCodepoints(characterSet.value.items.value);
      if mappedItems.Err? {
        return Err(mappedItems.error);
      }
      result.items := mappedItems.value;
      r := Ok(result);
    }

    /** `isPrintableCharacterValid`: null and the empty string pass; otherwise some item must print as the string. */
    predicate IsPrintableCharacterValid(givenPrintableCharacter: Option<UString>)
      reads this
      ensures IsPrintableCharacterValid(givenPrintableCharacter) <==>
        || givenPrintableCharacter.None?
        || givenPrintableCharacter.value == []
        || exists i | 0 <= i < |items| :: items[i].Utf8() == givenPrintableCharacter.value
    {
      givenPrintableCharacter.None? || givenPrintableCharacter.value == [] || AnyPrints(items, givenPrintableCharacter.value)
    }

    /** `isUTF8CodepointValid`: the list contains the code point; never true for null. */
    predicate IsUTF8CodepointValid(codePoint: Option<UTF8Codepoint>)
      reads this
      ensures IsUTF8CodepointValid(codePoint) <==> codePoint.Some? && codePoint.value in items
    {
      codePoint.Some? && Contains(items, codePoint.value)
    }

    function Name(): UString
    {
      name.name
    }

    /** `size()`: the number of items. */
    function Size(): nat
      reads this
    {
      |items|
    }
  }
}
