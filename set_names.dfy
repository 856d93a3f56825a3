/**
 * The name wrappers of the character sets (`UTF8SubsetSetName`,
 * `UTF8SubsetSetId`, `TransliterableCharacterSetName`): a string that is
 * neither null nor blank.
 */
module SetNames {
  import opened Wrappers
  import opened JavaLang
  import StringUtils

  /** A set name; `New` is the only way to build one from untrusted input. */
  datatype SetName = SetName(name: UString)

  /** The wrapper's constructor: rejects null and blank names. */
  function New(name: Option<UString>): (r: Fallible<SetName>)
    ensures r.Ok? <==> name.Some? && !StringUtils.IsBlank(name.value)
    ensures r.Err? ==> r == IllegalArgumentError("name must not be blank")
    ensures r.Ok? ==> r.value.name == name.value
  {
    if name.None? || StringUtils.IsBlank(name.value) then IllegalArgumentError("name must not be blank")
    else Ok(SetName(name.value))
  }
}
