/**
 * `AbstractUnicodeSubsetValidator.isValid`: the Bean Validation check that a
 * string field holds only characters of a whitelist. The string is examined
 * one UTF-16 code unit at a time; every unit the whitelist does not accept as
 * a one-unit string is collected, and a non-empty collection is reported as
 * one constraint violation.
 */
module SubsetValidator {
  import opened Wrappers
  import opened JavaLang
  import StringUtils
  import opened Codepoints
  import opened Validation

  /** The validated value: null, a `String`, or an object of any other class. */
  datatype Value = Null | Text(s: UString) | NonString

  /** The `ConstraintValidatorContext`, reduced to what `isValid` does to it. */
  class ConstraintContext {
    /** Set by `disableDefaultConstraintViolation`. */
    var defaultViolationDisabled: bool
    /** One entry per added violation: the rejected letters its message lists. */
    var violations: seq<set<UString>>

    constructor ()
      ensures !defaultViolationDisabled && violations == []
    {
      defaultViolationDisabled := false;
      violations := [];
    }
  }

  /** The letters of `s` the whitelist rejects: each a string of one code unit. */
  function RejectedLetters(s: UString, whitelist: ValidatableUTF8CharacterSet): set<UString>
    reads whitelist
  {
    set i | 0 <= i < |s| && !whitelist.IsPrintableCharacterValid(Some([s[i]])) :: [s[i]]
  }

  /** The loop of `isValid`: every code unit whose one-unit string the whitelist rejects goes into a set. */
  method CollectRejected(s: UString, whitelist: ValidatableUTF8CharacterSet) returns (unallowedSubstrings: set<UString>)
    ensures unallowedSubstrings == RejectedLetters(s, whitelist)
    ensures forall letter | letter in unallowedSubstrings :: |letter| == 1 && letter[0] in s
  {
    unallowedSubstrings := {};
    for i := 0 to |s|
      invariant unallowedSubstrings ==
        set k | 0 <= k < i && !whitelist.IsPrintableCharacterValid(Some([s[k]])) :: [s[k]]
    {
      var letter := [s[i]];
      if !whitelist.IsPrintableCharacterValid(Some(letter)) {
        unallowedSubstrings := unallowedSubstrings + {letter};
      }
    }
  }

  /**
   * `isValid`: null and blank strings pass and other classes fail without
   * loading the whitelist; a failure to load it propagates; otherwise the
   * string passes iff no letter is rejected, and a rejection disables the
   * default violation and adds one listing the rejected letters.
   */
  method IsValid(value: Value, validationProvider: Fallible<ValidatableUTF8CharacterSet>, context: ConstraintContext)
    returns (r: Fallible<bool>)
    modifies context
    ensures value.Null? ==> r == Ok(true) && unchanged(context)
    ensures value.NonString? ==> r == Ok(false) && unchanged(context)
    ensures value.Text? && StringUtils.IsBlank(value.s) ==> r == Ok(true) && unchanged(context)
    ensures value.Text? && !StringUtils.IsBlank(value.s) && validationProvider.Err? ==>
      r == Err(validationProvider.error) && unchanged(context)
    ensures value.Text? && !StringUtils.IsBlank(value.s) && validationProvider.Ok? ==>
      var rejected := RejectedLetters(value.s, validationProvider.value);
      && r == Ok(rejected == {})
      && (rejected == {} ==> unchanged(context))
      && (rejected != {} ==>
            && context.defaultViolationDisabled
            && context.violations == old(context.violations) + [rejected])
  {
    if value.Null? {
      return Ok(true);
    }
    if value.NonString? {
      return Ok(false);
    }
    var strValue := value.s;
    if StringUtils.IsBlank(strValue) {
      return Ok(true);
    }
    if validationProvider.Err? {
      return Err(validationProvider.error);
    }
    var unallowedSubstrings := CollectRejected(strValue, validationProvider.value);
    if unallowedSubstrings != {} {
      context.defaultViolationDisabled := true;
      context.violations := context.violations + [unallowedSubstrings];
      return Ok(false);
    }
    r := Ok(true);
  }

  /** A string passes iff every one of its code units, on its own, prints like some whitelist item. */
  lemma NoneRejectedIffEveryUnitListed(s: UString, whitelist: ValidatableUTF8CharacterSet)
    ensures RejectedLetters(s, whitelist) == {} <==>
      forall i | 0 <= i < |s| :: exists k | 0 <= k < |whitelist.items| :: whitelist.items[k].Utf8() == [s[i]]
  {
    if RejectedLetters(s, whitelist) == {} {
      forall i | 0 <= i < |s|
        ensures exists k | 0 <= k < |whitelist.items| :: whitelist.items[k].Utf8() == [s[i]]
      {
        assert [s[i]] !in RejectedLetters(s, whitelist);
      }
    } else {
      var letter :| letter in RejectedLetters(s, whitelist);
      var i :| 0 <= i < |s| && !whitelist.IsPrintableCharacterValid(Some([s[i]])) && letter == [s[i]];
      assert !exists k | 0 <= k < |whitelist.items| :: whitelist.items[k].Utf8() == [s[i]];
    }
  }

  /**
   * Only items that print as one code unit can accept a letter: an item such
   * as "0043 0300", printing as C followed by a combining grave accent, never
   * does, so a whitelist holding only it rejects the very string it prints as.
   */
  lemma DecomposedEntryRejectsItself(whitelist: ValidatableUTF8CharacterSet, field: UString, s: UString)
    requires field == Lit("0043 0300")
    requires whitelist.items == [UTF8Codepoint(field, DEFAULT_SEPARATION_CHAR)]
    requires s == [0x43, 0x300]
    ensures whitelist.IsPrintableCharacterValid(Some(s))
    ensures RejectedLetters(s, whitelist) == {[0x43], [0x300]}
  {
    DecomposedCPrints(field, DEFAULT_SEPARATION_CHAR);
    assert whitelist.items[0].Utf8() == s;
    var rejected := RejectedLetters(s, whitelist);
    assert !whitelist.IsPrintableCharacterValid(Some([s[0]]));
    assert !whitelist.IsPrintableCharacterValid(Some([s[1]]));
    assert [s[0]] in rejected && [s[1]] in rejected;
  }
}
