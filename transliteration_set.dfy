/**
 * `TransliterableUTF8CharacterSet` of the `transliteration` package: a set
 * with a checked name, loaded from a `MappableCharacterSet`, optionally with
 * a caller-supplied transliteration map.
 *
 * Its `TransliterableUTF8Character` has the fields and accessors of the root
 * package's class and is modelled by the same datatype; what it adds is the
 * constructor from a `MappableCharacter`, `CharacterFrom` below.
 */
module Transliteration {
  import opened Wrappers
  import opened JavaLang
  import opened JavaUtil
  import SetNames
  import StringUtils
  import opened Codepoints
  import opened Mappable
  import opened TransliterableCharacters

  /**
   * `new TransliterableUTF8Character(MappableCharacter)`: rejects a null
   * provider, then builds the original from the code-point field and the
   * transliteration from the mapping field, both with the provider's
   * separation char; a null field is rejected by the `UTF8Codepoint`
   * constructor.
   */
  function CharacterFrom(provider: Option<MappableCharacter>): (r: Fallible<TransliterableUTF8Character>)
    ensures provider.None? ==> r == IllegalArgumentError("provider must not be null")
    ensures provider.Some? && (provider.value.codePoint.None? || provider.value.mapping.None?) ==>
      r == IllegalArgumentError("codePoints must not be null")
    ensures r.Ok? <==> provider.Some? && provider.value.codePoint.Some? && provider.value.mapping.Some?
    ensures r.Ok? ==>
      && r.value.originalCodepoint == UTF8Codepoint(provider.value.codePoint.value, provider.value.separationChar)
      && r.value.transliteradedCodepoint == UTF8Codepoint(provider.value.mapping.value, provider.value.separationChar)
  {
    if provider.None? then IllegalArgumentError("provider must not be null")
    else
      var p := provider.value;
      var original :- NewWithSeparator(p.codePoint, p.separationChar);
      var transliterated :- NewWithSeparator(p.mapping, p.separationChar);
      Ok(TransliterableUTF8Character(original, transliterated))
  }

  /** Origin "0043 0300" with mapping "0043" prints as C with combining grave accent and transliterates to C. */
  lemma DecomposedCTransliteratesToC(codePoint: UString, mapping: UString)
    requires codePoint == Lit("0043 0300") && mapping == Lit("0043")
    ensures CharacterFrom(Some(MappableCharacter(Some(codePoint), Some(mapping), DEFAULT_SEPARATION_CHAR))).Ok?
    ensures CharacterFrom(Some(MappableCharacter(Some(codePoint), Some(mapping), DEFAULT_SEPARATION_CHAR))).value.AsUtf8() == [0x43, 0x300]
    ensures CharacterFrom(Some(MappableCharacter(Some(codePoint), Some(mapping), DEFAULT_SEPARATION_CHAR))).value.Transliterated() == [0x43]
  {
    var provider := MappableCharacter(Some(codePoint), Some(mapping), DEFAULT_SEPARATION_CHAR);
    var original := UTF8Codepoint(codePoint, DEFAULT_SEPARATION_CHAR);
    var transliterated := UTF8Codepoint(mapping, DEFAULT_SEPARATION_CHAR);
    assert CharacterFrom(Some(provider)) == Ok(TransliterableUTF8Character(original, transliterated));
    DecomposedCPrints(codePoint, DEFAULT_SEPARATION_CHAR);
    SingleTokenPrintsOneUnit(mapping);
  }

  /** The items `from` keeps: every entry whose character can be built, in list order. */
  function Kept(entries: seq<Option<MappableCharacter>>): seq<TransliterableUTF8Character>
  {
    if entries == [] then []
    else
      var front := Kept(entries[..|entries| - 1]);
      match CharacterFrom(entries[|entries| - 1])
      case Ok(ch) => front + [ch]
      case Err(_) => front
  }

  /**
   * The loading loop of `from` as written: a character that cannot be built
   * is logged and skipped, but the log statement reads the entry's mapping,
   * so a null entry raises a `NullPointerException` that ends the load.
   */
  function LoadAsWritten(entries: seq<Option<MappableCharacter>>): (r: Fallible<seq<TransliterableUTF8Character>>)
    ensures r.Err? <==> None in entries
    ensures r.Err? ==> r.error == NullPointer
    ensures r.Ok? ==> |r.value| <= |entries|
  {
    if entries == [] then Ok([])
    else
      var last := entries[|entries| - 1];
      var front :- LoadAsWritten(entries[..|entries| - 1]);
      match CharacterFrom(last)
      case Ok(ch) => Ok(front + [ch])
      case Err(_) => if last.None? then Err(NullPointer) else Ok(front)
  }

  /**
   * The loop as written agrees with skipping every unbuildable entry unless
   * the list holds a null entry, in which case it throws.
   */
  lemma {:induction false} LoadAsWrittenThrowsOnNullEntry(entries: seq<Option<MappableCharacter>>)
    ensures None in entries ==> LoadAsWritten(entries) == Err(NullPointer)
    ensures None !in entries ==> LoadAsWritten(entries) == Ok(Kept(entries))
    decreases |entries|
  {
    if entries != [] {
      var n := |entries| - 1;
      var front := entries[..n];
      LoadAsWrittenThrowsOnNullEntry(front);
      assert entries == front + [entries[n]];
      assert None in entries <==> None in front || entries[n] == None;
    }
  }

  /** A list holding one null entry: loading throws, though skipping it leaves an empty set. */
  lemma NullEntryAbortsLoad(entries: seq<Option<MappableCharacter>>)
    requires entries == [None]
    ensures LoadAsWritten(entries) == Err(NullPointer)
    ensures Kept(entries) == []
  {
    LoadAsWrittenThrowsOnNullEntry(entries);
    assert entries[..0] == [];
  }

  /** Loading never yields more items than the provider has entries. */
  lemma {:induction false} KeptAtMostEntries(entries: seq<Option<MappableCharacter>>)
    ensures |Kept(entries)| <= |entries|
    decreases |entries|
  {
    if entries != [] {
      KeptAtMostEntries(entries[..|entries| - 1]);
    }
  }

  /** The kept items are exactly the characters built from some entry: none is invented, none dropped. */
  lemma {:induction false} KeptExactlyBuilt(entries: seq<Option<MappableCharacter>>, ch: TransliterableUTF8Character)
    ensures ch in Kept(entries) <==> exists i | 0 <= i < |entries| :: CharacterFrom(entries[i]) == Ok(ch)
    decreases |entries|
  {
    if entries != [] {
      var n := |entries| - 1;
      var front := entries[..n];
      KeptExactlyBuilt(front, ch);
      if ch in Kept(entries) && ch in Kept(front) {
        var i :| 0 <= i < |front| && CharacterFrom(front[i]) == Ok(ch);
        assert entries[i] == front[i];
      }
      if exists i | 0 <= i < |entries| :: CharacterFrom(entries[i]) == Ok(ch) {
        var i :| 0 <= i < |entries| && CharacterFrom(entries[i]) == Ok(ch);
        if i < n {
          assert front[i] == entries[i];
        }
      }
    }
  }

  /** When every entry can be built, every entry is kept, in order. */
  lemma {:induction false} KeptAllWhenAllBuildable(entries: seq<Option<MappableCharacter>>)
    requires forall i | 0 <= i < |entries| :: CharacterFrom(entries[i]).Ok?
    ensures |Kept(entries)| == |entries|
    ensures forall i | 0 <= i < |entries| :: Ok(Kept(entries)[i]) == CharacterFrom(entries[i])
    decreases |entries|
  {
    if entries != [] {
      var n := |entries| - 1;
      var front := entries[..n];
      assert forall i | 0 <= i < |front| :: front[i] == entries[i];
      KeptAllWhenAllBuildable(front);
    }
  }

  /** The printable original of every item, in list order: the keys `withCustomTransliterations` looks up. */
  function Originals(items: seq<TransliterableUTF8Character>): (keys: seq<UString>)
    ensures |keys| == |items|
  {
    seq(|items|, i requires 0 <= i < |items| => items[i].AsUtf8())
  }

  /** The index of the first key the map leaves without a non-null value. */
  function FirstMissing(keys: seq<UString>, transliterations: StringMap): (r: Option<nat>)
    ensures r.Some? ==> r.value < |keys| && Get(transliterations, Some(keys[r.value])).None?
    ensures r.Some? ==> forall j | 0 <= j < r.value :: Get(transliterations, Some(keys[j])).Some?
    ensures r.None? ==> forall j | 0 <= j < |keys| :: Get(transliterations, Some(keys[j])).Some?
    decreases |keys|
  {
    if keys == [] then None
    else if Get(transliterations, Some(keys[0])).None? then Some(0)
    else
      match FirstMissing(keys[1..], transliterations)
      case None => None
      case Some(k) => Some(k + 1)
  }

  /** The first key without a value is the one after a run of keys that all have one. */
  lemma FirstMissingAt(keys: seq<UString>, transliterations: StringMap, i: nat)
    requires i < |keys| && Get(transliterations, Some(keys[i])).None?
    requires forall j | 0 <= j < i :: Get(transliterations, Some(keys[j])).Some?
    ensures FirstMissing(keys, transliterations) == Some(i)
  {
  }

  /** The message `withCustomTransliterations` gives for an item without transliteration. */
  function MissingMessage(ch: TransliterableUTF8Character): UString
  {
    Lit("transliteration for ") + ch.originalCodepoint.ToString() + Lit(" is missing")
  }

  /** The message names the item by its original code point's `toString`, between a fixed prefix and suffix. */
  lemma MissingMessageNamesItem(ch: TransliterableUTF8Character)
    ensures var r := MissingMessage(ch);
      && |r| == 20 + |ch.originalCodepoint.ToString()| + 11
      && r[..20] == Lit("transliteration for ")
      && r[20..20 + |ch.originalCodepoint.ToString()|] == ch.originalCodepoint.ToString()
      && r[|r| - 11..] == Lit(" is missing")
  {
    ConcatFive(Lit("transliteration for "), ch.originalCodepoint.ToString(), Lit(" is missing"), [], []);
  }

  /** The checks `withCustomTransliterations` makes after loading: first the sizes, then each item in order. */
  function CustomError(items: seq<TransliterableUTF8Character>, transliterations: StringMap): Option<Exception>
  {
    if |items| != |transliterations| then Some(IllegalArgument(Lit("items and transliterations need to be of same size")))
    else
      match FirstMissing(Originals(items), transliterations)
      case Some(i) => Some(IllegalArgument(MissingMessage(items[i])))
      case None => None
  }

  /**
   * The checks pass iff the sizes agree and every item's printable original
   * has a non-null value; a size mismatch is reported first, otherwise the
   * first item without a value is named.
   */
  lemma CustomErrorCases(items: seq<TransliterableUTF8Character>, transliterations: StringMap)
    ensures CustomError(items, transliterations).None? <==>
      |items| == |transliterations| && forall i | 0 <= i < |items| :: Get(transliterations, Some(items[i].AsUtf8())).Some?
    ensures |items| != |transliterations| ==>
      CustomError(items, transliterations) == Some(IllegalArgument(Lit("items and transliterations need to be of same size")))
    ensures CustomError(items, transliterations).Some? && |items| == |transliterations| ==> exists i | 0 <= i < |items| ::
      && Get(transliterations, Some(items[i].AsUtf8())).None?
      && (forall j | 0 <= j < i :: Get(transliterations, Some(items[j].AsUtf8())).Some?)
      && CustomError(items, transliterations) == Some(IllegalArgument(MissingMessage(items[i])))
  {
    var keys := Originals(items);
    assert forall i | 0 <= i < |items| :: keys[i] == items[i].AsUtf8();
  }

  /** The exception `from` throws before loading, if any: provider, item list and name are checked in that order. */
  function FromError(provider: Option<MappableCharacterSet>): (r: Option<Exception>)
    ensures r.None? <==>
      provider.Some? && provider.value.items.Some? && provider.value.name.Some? && !StringUtils.IsBlank(provider.value.name.value)
    ensures provider.None? ==> r == Some(IllegalArgument(Lit("charSetProvider must not be null")))
    ensures provider.Some? && provider.value.items.None? ==>
      r == Some(IllegalArgument(Lit("charSetProvider.items must not be null")))
    ensures r.Some? && provider.Some? && provider.value.items.Some? ==>
      r == Some(IllegalArgument(Lit("name must not be blank")))
  {
    if provider.None? then Some(IllegalArgument(Lit("charSetProvider must not be null")))
    else if provider.value.items.None? then Some(IllegalArgument(Lit("charSetProvider.items must not be null")))
    else
      match SetNames.New(provider.value.name)
      case Err(e) => Some(e)
      case Ok(_) => None
  }

  predicate Distinct(keys: seq<UString>)
  {
    forall i, j | 0 <= i < j < |keys| :: keys[i] != keys[j]
  }

  function Elements(keys: seq<UString>): set<UString>
  {
    set i | 0 <= i < |keys| :: keys[i]
  }

  lemma {:induction false} DistinctCount(keys: seq<UString>)
    requires Distinct(keys)
    ensures |Elements(keys)| == |keys|
    decreases |keys|
  {
    if keys != [] {
      var n := |keys| - 1;
      var front := keys[..n];
      DistinctCount(front);
      assert Elements(keys) == Elements(front) + {keys[n]} by {
        forall k | k in Elements(keys)
          ensures k in Elements(front) + {keys[n]}
        {
          var i :| 0 <= i < |keys| && keys[i] == k;
          if i < n {
            assert front[i] == k;
          }
        }
        forall k | k in Elements(front)
          ensures k in Elements(keys)
        {
          var i :| 0 <= i < |front| && front[i] == k;
          assert keys[i] == k;
        }
      }
      assert keys[n] !in Elements(front);
    }
  }

  /**
   * For distinct keys, a map with as many entries as there are keys and a
   * non-null value for each key has exactly those keys, none mapped to null;
   * and conversely.
   */
  lemma {:induction false} CoverExactly(keys: seq<UString>, transliterations: StringMap)
    requires Distinct(keys)
    ensures (|keys| == |transliterations| && FirstMissing(keys, transliterations).None?) <==>
      transliterations.Keys == Elements(keys) && forall k | k in transliterations :: transliterations[k].Some?
  {
    DistinctCount(keys);
    var mapKeys := transliterations.Keys;
    if |keys| == |transliterations| && FirstMissing(keys, transliterations).None? {
      assert Elements(keys) <= mapKeys by {
        forall k | k in Elements(keys)
          ensures k in mapKeys
        {
          var i :| 0 <= i < |keys| && keys[i] == k;
          assert Get(transliterations, Some(keys[i])).Some?;
        }
      }
      assert mapKeys == Elements(keys) + (mapKeys - Elements(keys));
      assert |mapKeys| == |Elements(keys)| + |mapKeys - Elements(keys)|;
      assert mapKeys - Elements(keys) == {};
      forall k | k in transliterations
        ensures transliterations[k].Some?
      {
        var i :| 0 <= i < |keys| && keys[i] == k;
        assert Get(transliterations, Some(keys[i])).Some?;
      }
    }
  }

  /**
   * For items with distinct printable originals, a custom map passes the
   * checks iff its keys are exactly those originals and none maps to null.
   */
  lemma CustomMapMustCoverItemsExactly(items: seq<TransliterableUTF8Character>, transliterations: StringMap)
    requires Distinct(Originals(items))
    ensures CustomError(items, transliterations).None? <==>
      transliterations.Keys == Elements(Originals(items)) && forall k | k in transliterations :: transliterations[k].Some?
  {
    CoverExactly(Originals(items), transliterations);
  }

  /**
   * Two items with the same printable original and a map holding just that
   * original: every item has a transliteration, yet the size check rejects it.
   */
  lemma DuplicateOriginsFailSizeCheck(items: seq<TransliterableUTF8Character>, transliterations: StringMap, t: UString)
    requires |items| == 2 && Originals(items)[0] == Originals(items)[1]
    requires transliterations == map[Originals(items)[0] := Some(t)]
    ensures CustomError(items, transliterations) == Some(IllegalArgument(Lit("items and transliterations need to be of same size")))
    ensures forall i | 0 <= i < |items| :: Get(transliterations, Some(Originals(items)[i])) == Some(t)
  {
    var keys := Originals(items);
    assert |transliterations| == 1 != |items|;
    assert forall i | 0 <= i < |items| :: keys[i] == keys[0];
  }

  /**
   * The checks of `withCustomTransliterations` on the loaded items: the sizes
   * must agree, then every item in order must have a non-null transliteration.
   */
  method CheckCustomTransliterations(items: seq<TransliterableUTF8Character>, transliterations: StringMap)
    returns (error: Option<Exception>)
    ensures error == CustomError(items, transliterations)
    ensures error.None? ==> forall i | 0 <= i < |items| :: Get(transliterations, Some(items[i].AsUtf8())).Some?
  {
    if |items| != |transliterations| {
      return Some(IllegalArgument(Lit("items and transliterations need to be of same size")));
    }
    var keys := Originals(items);
    for i := 0 to |keys|
      invariant forall j | 0 <= j < i :: Get(transliterations, Some(keys[j])).Some?
    {
      if Get(transliterations, Some(keys[i])).None? {
        FirstMissingAt(keys, transliterations, i);
        return Some(IllegalArgument(MissingMessage(items[i])));
      }
    }
    assert FirstMissing(keys, transliterations).None?;
    assert forall i | 0 <= i < |items| :: keys[i] == items[i].AsUtf8();
    error := None;
  }

  /** The message for a missing transliteration of C with combining grave accent. */
  lemma MissingMessageOfDecomposedC(ch: TransliterableUTF8Character, field: UString)
    requires field == Lit("0043 0300") && ch.originalCodepoint == UTF8Codepoint(field, DEFAULT_SEPARATION_CHAR)
    ensures MissingMessage(ch)
         == Lit("transliteration for ") + Lit("UTF8Codepoint [utf8=") + [0x43, 0x300]
          + Lit(", codePoints=") + field + Lit("]") + Lit(" is missing")
  {
    ToStringOfDecomposedC(field);
  }

  class TransliterableUTF8CharacterSet {
    const name: SetNames.SetName
    var items: seq<TransliterableUTF8Character>
    var transliterations: StringMap

    /** The constructor once its null check has passed: no items, no transliterations. */
    constructor Init(name: SetNames.SetName)
      ensures this.name == name && items == [] && transliterations == map[]
    {
      this.name := name;
      items := [];
      transliterations := map[];
    }

    /** The constructor: a null name is rejected. */
    static method Create(name: Option<SetNames.SetName>) returns (r: Fallible<TransliterableUTF8CharacterSet>)
      ensures name.None? <==> r.Err?
      ensures r.Err? ==> r == IllegalArgumentError("name must not be null")
      ensures r.Ok? ==> fresh(r.value) && r.value.name == name.value && r.value.items == [] && r.value.transliterations == map[]
    {
      if name.None? {
        return IllegalArgumentError("name must not be null");
      }
      var s := new TransliterableUTF8CharacterSet.Init(name.value);
      r := Ok(s);
    }

    /**
     * `from`: after the provider, its item list and its name have passed their
     * checks, every entry whose character cannot be built is skipped (with the
     * null-entry case corrected, see `LoadAsWritten`), and the map is built
     * from the kept items.
     */
    static method From(charSetProvider: Option<MappableCharacterSet>) returns (r: Fallible<TransliterableUTF8CharacterSet>)
      ensures r.Err? <==> FromError(charSetProvider).Some?
      ensures r.Err? ==> r.error == FromError(charSetProvider).value
      ensures r.Ok? ==>
        && fresh(r.value)
        && r.value.name == SetNames.New(charSetProvider.value.name).value
        && r.value.items == Kept(charSetProvider.value.items.value)
        && r.value.transliterations == PutAll(Entries(Kept(charSetProvider.value.items.value)))
    {
      if charSetProvider.None? {
        return IllegalArgumentError("charSetProvider must not be null");
      }
      if charSetProvider.value.items.None? {
        return IllegalArgumentError("charSetProvider.items must not be null");
      }
      var name := SetNames.New(charSetProvider.value.name);
      if name.Err? {
        return Err(name.error);
      }
      var result := new TransliterableUTF8CharacterSet.Init(name.value);
      var transliterableChars := charSetProvider.value.items.value;
      var items: seq<TransliterableUTF8Character> := [];
      for i := 0 to |transliterableChars|
        invariant items == Kept(transliterableChars[..i])
      {
        assert transliterableChars[..i + 1][..i] == transliterableChars[..i];
        var ch := CharacterFrom(transliterableChars[i]);
        if ch.Ok? {
          items := items + [ch.value];
        }
      }
      assert transliterableChars[..|transliterableChars|] == transliterableChars;
      var s := WithItems(result, items);
      r := Ok(s);
    }

    /** `withItems`: a new set named like `startingSet`, its map built by putting every item's pair in order. */
    static method WithItems(startingSet: TransliterableUTF8CharacterSet, items: seq<TransliterableUTF8Character>)
      returns (result: TransliterableUTF8CharacterSet)
      ensures fresh(result)
      ensures result.name == startingSet.name && result.items == items
      ensures result.transliterations == PutAll(Entries(items))
    {
      result := new TransliterableUTF8CharacterSet.Init(startingSet.name);
      result.items := items;
      var transliterationMap: StringMap := map[];
      for i := 0 to |items|
        invariant transliterationMap == PutAll(Entries(items[..i]))
      {
        assert Entries(items[..i + 1])[..i] == Entries(items[..i]);
        var key := items[i].AsUtf8();
        var value := items[i].Transliterated();
        transliterationMap := transliterationMap[key := Some(value)];
      }
      assert items[..|items|] == items;
      result.transliterations := transliterationMap;
    }

    /**
     * `withCustomTransliterations`: a null map is rejected first; then the set
     * is loaded by `from`, and the map replaces the computed one once it has as
     * many entries as the set has items and a non-null value for every item.
     */
    static method WithCustomTransliterations(charSetProvider: Option<MappableCharacterSet>, transliterations: Option<StringMap>)
      returns (r: Fallible<TransliterableUTF8CharacterSet>)
      ensures transliterations.None? ==> r == IllegalArgumentError("transliterations must not be null")
      ensures transliterations.Some? && FromError(charSetProvider).Some? ==> r == Err(FromError(charSetProvider).value)
      ensures transliterations.Some? && FromError(charSetProvider).None? ==>
        var items := Kept(charSetProvider.value.items.value);
        && (r.Err? <==> CustomError(items, transliterations.value).Some?)
        && (r.Err? ==> r.error == CustomError(items, transliterations.value).value)
        && (r.Ok? ==>
              && fresh(r.value)
              && r.value.name == SetNames.New(charSetProvider.value.name).value
              && r.value.items == items
              && r.value.transliterations == transliterations.value)
    {
      if transliterations.None? {
        return IllegalArgumentError("transliterations must not be null");
      }
      var m := transliterations.value;
      var loaded := From(charSetProvider);
      if loaded.Err? {
        return loaded;
      }
      var result := loaded.value;
      var error := CheckCustomTransliterations(result.items, m);
      if error.Some? {
        return Err(error.value);
      }
      result.transliterations := m;
      r := Ok(result);
    }

    /** `printableTransliteratedCharacter`: the map's value, null when there is none. */
    function PrintableTransliteratedCharacter(givenPrintableCharacter: Option<UString>): (r: Option<UString>)
      reads this
      ensures givenPrintableCharacter.None? ==> r.None?
      ensures r.Some? ==> givenPrintableCharacter.value in transliterations && transliterations[givenPrintableCharacter.value] == r
      ensures givenPrintableCharacter.Some? && givenPrintableCharacter.value in transliterations ==>
        r == transliterations[givenPrintableCharacter.value]
    {
      Get(transliterations, givenPrintableCharacter)
    }

    function Name(): UString
    {
      name.name
    }

    /** `size()`: the number of items. */
    function Size(): nat
      reads this
    {
      |items|
    }
  }

  /**
   * A set loaded by `from` has at most as many items as the provider has
   * entries, and transliterates a printable character iff some kept item
   * prints as it, to that item's transliteration.
   */
  method LoadAndLookup(charSetProvider: Option<MappableCharacterSet>, givenPrintableCharacter: UString)
    returns (loaded: bool, size: nat, transliterated: Option<UString>)
    ensures loaded <==> FromError(charSetProvider).None?
    ensures loaded ==>
      var kept := Kept(charSetProvider.value.items.value);
      && size == |kept| <= |charSetProvider.value.items.value|
      && (transliterated.Some? <==> exists i | 0 <= i < |kept| :: kept[i].AsUtf8() == givenPrintableCharacter)
      && (transliterated.Some? ==> exists i | 0 <= i < |kept| ::
            kept[i].AsUtf8() == givenPrintableCharacter && kept[i].Transliterated() == transliterated.value)
  {
    var r := TransliterableUTF8CharacterSet.From(charSetProvider);
    if r.Err? {
      return false, 0, None;
    }
    var kept := Kept(charSetProvider.value.items.value);
    KeptAtMostEntries(charSetProvider.value.items.value);
    TransliterationLookup(kept, givenPrintableCharacter);
    loaded := true;
    size := r.value.Size();
    transliterated := r.value.PrintableTransliteratedCharacter(Some(givenPrintableCharacter));
  }
}
