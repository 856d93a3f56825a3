/**
 * The parts of java.util the character sets rely on: a `Map<String, String>`
 * whose values may be null, `get`, `containsKey`, and a map filled by `put`
 * calls in list order, where a later key overwrites an earlier one.
 */
module JavaUtil {
  import opened Wrappers
  import opened JavaLang

  /** A `Map<String, String>`; a `None` value is a key mapped to null. */
  type StringMap = map<UString, Option<UString>>

  /** `Map.get`: null for a null or absent key and for a key mapped to null. */
  function Get(m: StringMap, key: Option<UString>): Option<UString>
  {
    if key.Some? && key.value in m then m[key.value] else None
  }

  /** `Map.containsKey`; the maps here never hold a null key. */
  predicate ContainsKey(m: StringMap, key: Option<UString>)
  {
    key.Some? && key.value in m
  }

  /** The map after `put(key, value)` for every entry, in order, into an empty map. */
  function PutAll(entries: seq<(UString, UString)>): StringMap
  {
    if entries == [] then map[]
    else PutAll(entries[..|entries| - 1])[entries[|entries| - 1].0 := Some(entries[|entries| - 1].1)]
  }

  /** The keys of the filled map are exactly the keys of the entries. */
  lemma {:induction false} PutAllKeys(entries: seq<(UString, UString)>)
    ensures PutAll(entries).Keys == set i | 0 <= i < |entries| :: entries[i].0
    decreases |entries|
  {
    if entries != [] {
      var n := |entries| - 1;
      var front := entries[..n];
      PutAllKeys(front);
      var keys := set i | 0 <= i < |entries| :: entries[i].0;
      var frontKeys := set i | 0 <= i < |front| :: front[i].0;
      assert keys == frontKeys + {entries[n].0} by {
        forall k | k in keys
          ensures k in frontKeys + {entries[n].0}
        {
          var i :| 0 <= i < |entries| && entries[i].0 == k;
          if i < n {
            assert front[i].0 == k;
          }
        }
        forall k | k in frontKeys
          ensures k in keys
        {
          var i :| 0 <= i < |front| && front[i].0 == k;
          assert entries[i].0 == k;
        }
      }
    }
  }

  /** No value of the filled map is null, and each key holds the value of its last entry. */
  lemma {:induction false} PutAllLastWins(entries: seq<(UString, UString)>, i: nat)
    requires i < |entries|
    requires forall j | i < j < |entries| :: entries[j].0 != entries[i].0
    ensures entries[i].0 in PutAll(entries)
    ensures PutAll(entries)[entries[i].0] == Some(entries[i].1)
    decreases |entries|
  {
    var n := |entries| - 1;
    if i < n {
      var front := entries[..n];
      assert front[i] == entries[i];
      PutAllLastWins(front, i);
    }
  }

  /** Looking a key up in the filled map finds a value iff some entry has that key. */
  lemma {:induction false} GetAfterPutAll(entries: seq<(UString, UString)>, key: UString)
    ensures Get(PutAll(entries), Some(key)).Some? <==> exists i | 0 <= i < |entries| :: entries[i].0 == key
    ensures Get(PutAll(entries), Some(key)).Some? ==>
      exists i | 0 <= i < |entries| :: entries[i] == (key, Get(PutAll(entries), Some(key)).value)
    decreases |entries|
  {
    if entries != [] {
      var n := |entries| - 1;
      var front := entries[..n];
      GetAfterPutAll(front, key);
      if entries[n].0 != key {
        if exists i | 0 <= i < |front| :: front[i].0 == key {
          var i :| 0 <= i < |front| && front[i].0 == key;
          assert entries[i].0 == key;
          var j :| 0 <= j < |front| && front[j] == (key, Get(PutAll(front), Some(key)).value);
          assert entries[j] == front[j];
        }
        if exists i | 0 <= i < |entries| :: entries[i].0 == key {
          var i :| 0 <= i < |entries| && entries[i].0 == key;
          assert front[i].0 == key;
        }
      }
    }
  }
}
