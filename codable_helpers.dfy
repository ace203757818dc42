/**
 * `decodeIfPresent(_:keysVariations:)` of
 * Sources/CodableExtensions/Codable+Extensions.swift.
 *
 * Looking up one key is reduced to its outcome: a thrown error, nil when the
 * key is absent or null, or a value. `lookup(k)` is that outcome for key `k`.
 */
module CodableHelpers {
  import opened Wrappers

  /** The outcome the key variations give, looking the keys up in order. */
  function FirstPresent<K, T, E>(keys: seq<K>, lookup: K -> Result<Option<T>, E>): (r: Result<Option<T>, E>)
    ensures r == Success(None) <==> forall j :: 0 <= j < |keys| ==> lookup(keys[j]) == Success(None)
    ensures r != Success(None) ==>
      exists i :: 0 <= i < |keys| && r == lookup(keys[i]) && (forall j :: 0 <= j < i ==> lookup(keys[j]) == Success(None))
    decreases |keys|
  {
    if keys == [] then Success(None)
    else if lookup(keys[0]) != Success(None) then lookup(keys[0])
    else
      var r := FirstPresent(keys[1..], lookup);
      assert forall j :: 1 <= j < |keys| ==> keys[j] == keys[1..][j - 1];
      r
  }

  /**
   * The first key that is present and non-null gives the value, whatever the
   * later keys hold; a key whose lookup throws ends the search with its error.
   */
  lemma FirstPresentIsFirst<K, T, E>(keys: seq<K>, lookup: K -> Result<Option<T>, E>, i: nat)
    requires i < |keys| && lookup(keys[i]) != Success(None)
    requires forall j :: 0 <= j < i ==> lookup(keys[j]) == Success(None)
    ensures FirstPresent(keys, lookup) == lookup(keys[i])
  {
    var r := FirstPresent(keys, lookup);
    var h :| 0 <= h < |keys| && r == lookup(keys[h]) && (forall j :: 0 <= j < h ==> lookup(keys[j]) == Success(None));
  }

  /** No key variations at all: nil. */
  lemma NoKeys<K, T, E>(lookup: K -> Result<Option<T>, E>)
    ensures FirstPresent([], lookup) == Success(None)
  {
  }

  /**
   * `decodeIfPresent(_:keysVariations:)`: tries the keys in order and returns
   * at the first value or error. `tried` counts the keys looked up.
   */
  method DecodeIfPresent<K, T, E>(keys: seq<K>, lookup: K -> Result<Option<T>, E>)
    returns (r: Result<Option<T>, E>, tried: nat)
    ensures r == FirstPresent(keys, lookup)
    ensures tried <= |keys|
    ensures forall j :: 0 <= j < tried - 1 ==> lookup(keys[j]) == Success(None)
    ensures r != Success(None) ==> 0 < tried && r == lookup(keys[tried - 1])
    ensures r == Success(None) ==> tried == |keys|
  {
    tried := 0;
    for i := 0 to |keys|
      invariant tried == i
      invariant forall j :: 0 <= j < i ==> lookup(keys[j]) == Success(None)
    {
      tried := tried + 1;
      var some := lookup(keys[i]);
      if some.Failure? {
        FirstPresentIsFirst(keys, lookup, i);
        return some, tried;
      }
      if some.value.Some? {
        FirstPresentIsFirst(keys, lookup, i);
        return some, tried;
      }
    }
    r := Success(None);
  }
}
