/**
 * The failure-tolerant decoding of Sources/CodableExtensions/SafelyDecodable.swift.
 *
 * A decoder is reduced to outcomes: decoding one value gives a `Result`, an
 * unkeyed container gives the outcomes of its elements in order, and a keyed
 * lookup gives the outcome of decoding the value under the key (`Option`
 * absent for `decodeIfPresent` when the key is missing or null).
 */
module SafelyDecoding {
  import opened Wrappers

  /** `SafelyDecodable<T>`: the outcome of decoding one value, kept rather than thrown. */
  datatype SafelyDecodable<T, E> = SafelyDecodable(result: Result<T, E>)

  /** `SafelyDecodableArray`: the elements that decoded, and the last error met. */
  datatype SafelyDecodableArray<V, E> = SafelyDecodableArray(wrappedValue: seq<V>, error: Option<E>)

  /** `try?`: the value of a success, nil for a failure. */
  function Try<T, E>(r: Result<T, E>): (o: Option<T>)
    ensures o.Some? <==> r.Success?
    ensures o.Some? ==> o.value == r.value
  {
    match r
    case Success(v) => Some(v)
    case Failure(_) => None
  }

  /**
   * `SafelyDecodable.init(from:)`: decoding the element may fail, the
   * initializer itself never throws.
   */
  function DecodeSafelyDecodable<T, E>(attempt: Result<T, E>): (r: Result<SafelyDecodable<T, E>, E>)
    ensures r.Success? && r.value.result == attempt
  {
    Success(SafelyDecodable(attempt))
  }

  // ----- the elements that decoded -----

  /** The values of the successful outcomes, in order. */
  function Successes<V, E>(rs: seq<Result<V, E>>): (vs: seq<V>)
    ensures |vs| <= |rs|
    decreases |rs|
  {
    if rs == [] then []
    else Successes(rs[..|rs| - 1]) + (if rs[|rs| - 1].Success? then [rs[|rs| - 1].value] else [])
  }

  /** The error of the last failed outcome, if any. */
  function LastFailure<V, E>(rs: seq<Result<V, E>>): (e: Option<E>)
    decreases |rs|
  {
    if rs == [] then None
    else if rs[|rs| - 1].Failure? then Some(rs[|rs| - 1].error)
    else LastFailure(rs[..|rs| - 1])
  }

  /** Keeping the successes commutes with concatenation: order is preserved. */
  lemma {:induction false} SuccessesAppend<V, E>(a: seq<Result<V, E>>, b: seq<Result<V, E>>)
    ensures Successes(a + b) == Successes(a) + Successes(b)
    decreases |b|
  {
    if b != [] {
      var b' := b[..|b| - 1];
      assert (a + b)[..|a + b| - 1] == a + b';
      SuccessesAppend(a, b');
    } else {
      assert a + b == a;
    }
  }

  /** Every kept value comes from a successful outcome, and every successful outcome's value is kept. */
  lemma {:induction false} SuccessesAreTheSuccessfulValues<V, E>(rs: seq<Result<V, E>>)
    ensures forall v :: v in Successes(rs) <==> Success(v) in rs
    decreases |rs|
  {
    if rs != [] {
      var init := rs[..|rs| - 1];
      SuccessesAreTheSuccessfulValues(init);
      assert rs == init + [rs[|rs| - 1]];
    }
  }

  /** When every outcome is a success, all values are kept, in order. */
  lemma {:induction false} SuccessesOfAllSuccesses<V, E>(rs: seq<Result<V, E>>)
    requires forall k :: 0 <= k < |rs| ==> rs[k].Success?
    ensures |Successes(rs)| == |rs|
    ensures forall k :: 0 <= k < |rs| ==> Successes(rs)[k] == rs[k].value
    decreases |rs|
  {
    if rs != [] {
      SuccessesOfAllSuccesses(rs[..|rs| - 1]);
    }
  }

  /** No error is recorded exactly when every outcome is a success. */
  lemma {:induction false} LastFailureNone<V, E>(rs: seq<Result<V, E>>)
    ensures LastFailure(rs).None? <==> forall k :: 0 <= k < |rs| ==> rs[k].Success?
    decreases |rs|
  {
    if rs != [] {
      var init := rs[..|rs| - 1];
      LastFailureNone(init);
      if rs[|rs| - 1].Success? {
        assert forall k :: 0 <= k < |init| ==> init[k] == rs[k];
      }
    }
  }

  /** A recorded error is that of a failure after which every outcome succeeded. */
  lemma {:induction false} LastFailureIsLast<V, E>(rs: seq<Result<V, E>>)
    requires LastFailure(rs).Some?
    ensures exists k ::
      0 <= k < |rs| && rs[k] == Failure(LastFailure(rs).value) && (forall j :: k < j < |rs| ==> rs[j].Success?)
    decreases |rs|
  {
    var last := |rs| - 1;
    if rs[last].Success? {
      var init := rs[..last];
      assert LastFailure(rs) == LastFailure(init);
      LastFailureIsLast(init);
      var k :| 0 <= k < |init| && init[k] == Failure(LastFailure(init).value) &&
        forall j :: k < j < |init| ==> init[j].Success?;
      forall j | k < j < |rs|
        ensures rs[j].Success?
      {
        if j < last {
          assert rs[j] == init[j];
        }
      }
      assert rs[k] == init[k];
    } else {
      assert rs[last] == Failure(LastFailure(rs).value);
    }
  }

  /**
   * `SafelyDecodableArray.init(from:)`: opening the unkeyed container may
   * throw; then every element is decoded in turn, a success appended to
   * `wrappedValue` and a failure recorded in `error` and skipped.
   */
  method DecodeSafelyDecodableArray<V, E>(container: Result<seq<Result<V, E>>, E>)
    returns (r: Result<SafelyDecodableArray<V, E>, E>)
    ensures container.Failure? ==> r == Failure(container.error)
    ensures container.Success? ==>
      r == Success(SafelyDecodableArray(Successes(container.value), LastFailure(container.value)))
  {
    if container.Failure? {
      return Failure(container.error);
    }
    var elements := container.value;
    var wrappedValue: seq<V> := [];
    var error: Option<E> := None;
    var i := 0;
    while i < |elements|
      invariant 0 <= i <= |elements|
      invariant wrappedValue == Successes(elements[..i])
      invariant error == LastFailure(elements[..i])
    {
      assert elements[..i + 1][..i] == elements[..i];
      match elements[i] {
        case Success(v) =>
          wrappedValue := wrappedValue + [v];
        case Failure(e) =>
          error := Some(e);
      }
      i := i + 1;
    }
    assert elements[..i] == elements;
    r := Success(SafelyDecodableArray(wrappedValue, error));
  }

  // ----- the keyed container helpers -----

  /** `decodeSafely(_:forKey:)`: the value under the key, nil when the lookup or the value's decoding failed. */
  function DecodeSafely<T, E>(decoded: Result<SafelyDecodable<T, E>, E>): (r: Option<T>)
    ensures r.Some? <==> decoded.Success? && decoded.value.result.Success?
    ensures r.Some? ==> r.value == decoded.value.result.value
  {
    match decoded
    case Success(d) => Try(d.result)
    case Failure(_) => None
  }

  /** `decodeSafelyIfPresent(_:forKey:)`: as `DecodeSafely`, and nil when the key is absent. */
  function DecodeSafelyIfPresent<T, E>(decoded: Result<Option<SafelyDecodable<T, E>>, E>): (r: Option<T>)
    ensures r.Some? <==> decoded.Success? && decoded.value.Some? && decoded.value.value.result.Success?
    ensures r.Some? ==> r.value == decoded.value.value.result.value
  {
    match decoded
    case Success(Some(d)) => Try(d.result)
    case _ => None
  }

  /** The outcomes held by an array of `SafelyDecodable`. */
  function Results<T, E>(ds: seq<SafelyDecodable<T, E>>): seq<Result<T, E>>
  {
    seq(|ds|, k requires 0 <= k < |ds| => ds[k].result)
  }

  /**
   * `decodeSafelyArray(of:forKey:)`, and `JSONDecoder.decodeSafelyArray(of:from:)`
   * on a whole document: the elements that decoded, in order, and none when
   * the array itself could not be decoded.
   */
  function DecodeSafelyArray<T, E>(decoded: Result<seq<SafelyDecodable<T, E>>, E>): (r: seq<T>)
    ensures decoded.Failure? ==> r == []
    ensures decoded.Success? ==> |r| <= |decoded.value|
    ensures decoded.Success? && (forall k :: 0 <= k < |decoded.value| ==> decoded.value[k].result.Success?) ==>
      |r| == |decoded.value| && forall k :: 0 <= k < |r| ==> r[k] == decoded.value[k].result.value
  {
    match decoded
    case Success(ds) =>
      if forall k :: 0 <= k < |ds| ==> ds[k].result.Success? then
        SuccessesOfAllSuccesses(Results(ds));
        Successes(Results(ds))
      else
        Successes(Results(ds))
    case Failure(_) => []
  }

  /** The values kept are exactly those of the elements that decoded, in order. */
  lemma DecodeSafelyArrayKeepsSuccesses<T, E>(a: seq<SafelyDecodable<T, E>>, b: seq<SafelyDecodable<T, E>>)
    ensures forall v :: v in DecodeSafelyArray(Success(a)) <==> exists k :: 0 <= k < |a| && a[k].result == Success(v)
    ensures DecodeSafelyArray(Success(a + b)) == DecodeSafelyArray(Success(a)) + DecodeSafelyArray(Success(b))
  {
    SuccessesAreTheSuccessfulValues(Results(a));
    forall v | Success(v) in Results(a)
      ensures exists k :: 0 <= k < |a| && a[k].result == Success(v)
    {
      var k :| 0 <= k < |a| && Results(a)[k] == Success(v);
      assert a[k].result == Results(a)[k];
    }
    forall v, k | 0 <= k < |a| && a[k].result == Success(v)
      ensures Success(v) in Results(a)
    {
      assert Results(a)[k] == a[k].result;
    }
    assert Results(a + b) == Results(a) + Results(b);
    SuccessesAppend(Results(a), Results(b));
  }

  /** `decodeSafelyArrayIfPresent(_:forKey:)`: nil when the key is absent or the array fails, else the elements that decoded. */
  function DecodeSafelyArrayIfPresent<T, E>(decoded: Result<Option<seq<SafelyDecodable<T, E>>>, E>): (r: Option<seq<T>>)
    ensures r.Some? <==> decoded.Success? && decoded.value.Some?
    ensures r.Some? ==> r.value == DecodeSafelyArray(Success(decoded.value.value))
  {
    match decoded
    case Success(Some(ds)) => Some(Successes(Results(ds)))
    case _ => None
  }

  /** The property wrapper and the keyed helper keep the same elements of the same array. */
  method WrapperAgreesWithHelper<T, E>(elements: seq<Result<T, E>>)
    returns (wrapped: Result<SafelyDecodableArray<T, E>, E>)
    ensures wrapped.Success?
    ensures wrapped.value.wrappedValue == DecodeSafelyArray(Success(Wrap(elements)))
    ensures wrapped.value.error.None? <==> forall k :: 0 <= k < |elements| ==> elements[k].Success?
  {
    wrapped := DecodeSafelyDecodableArray(Success(elements));
    WrapResultsInverse(elements, []);
    LastFailureNone(elements);
  }

  /** The `SafelyDecodable` array whose decoding gave the element outcomes `elements`. */
  function Wrap<T, E>(elements: seq<Result<T, E>>): seq<SafelyDecodable<T, E>>
  {
    seq(|elements|, k requires 0 <= k < |elements| => SafelyDecodable(elements[k]))
  }

  /**
   * An array of `SafelyDecodable` is nothing but the outcomes of its
   * elements: reading the outcomes and wrapping them again are inverse.
   */
  lemma WrapResultsInverse<T, E>(elements: seq<Result<T, E>>, ds: seq<SafelyDecodable<T, E>>)
    ensures Results(Wrap(elements)) == elements
    ensures Wrap(Results(ds)) == ds
  {
    assert |Results(Wrap(elements))| == |elements|;
    forall k | 0 <= k < |elements|
      ensures Results(Wrap(elements))[k] == elements[k]
    {
    }
    assert |Wrap(Results(ds))| == |ds|;
    forall k | 0 <= k < |ds|
      ensures Wrap(Results(ds))[k] == ds[k]
    {
    }
  }

  // ----- the key-only decodeSafelyArrayIfPresent -----

  /** Decoding a plain array: the values of all elements, or the first element error. */
  function DecodeArray<T, E>(elements: seq<Result<T, E>>): (r: Result<seq<T>, E>)
    ensures r.Success? <==> forall k :: 0 <= k < |elements| ==> elements[k].Success?
    ensures r.Success? ==> r.value == Successes(elements)
    decreases |elements|
  {
    if elements == [] then Success([])
    else
      SuccessesAppend([elements[0]], elements[1..]);
      assert [elements[0]] + elements[1..] == elements;
      assert Successes([elements[0]]) == (if elements[0].Success? then [elements[0].value] else []) by {
        assert [elements[0]][..0] == [];
      }
      match elements[0]
      case Failure(e) => Failure(e)
      case Success(v) =>
        match DecodeArray(elements[1..])
        case Failure(e) => Failure(e)
        case Success(vs) => Success([v] + vs)
  }

  /**
   * The key-only `decodeSafelyArrayIfPresent(_:)` as written: it forwards to
   * `decodeSafelyIfPresent`, which decodes the whole array as one value. The
   * array is `None` when the key is absent, else the outcomes of its elements.
   */
  function ByKeyAsWritten<T, E>(entry: Option<seq<Result<T, E>>>): (r: Option<seq<T>>)
    ensures r.Some? <==> entry.Some? && forall k :: 0 <= k < |entry.value| ==> entry.value[k].Success?
    ensures r.Some? ==> r.value == Successes(entry.value)
  {
    match entry
    case None => DecodeSafelyIfPresent<seq<T>, E>(Success(None))
    case Some(elements) => DecodeSafelyIfPresent(Success(Some(SafelyDecodable(DecodeArray(elements)))))
  }

  /** The key-only overload forwarding to the typed `decodeSafelyArrayIfPresent(_:forKey:)`, as its siblings do. */
  function ByKey<T, E>(entry: Option<seq<Result<T, E>>>): (r: Option<seq<T>>)
    ensures r.Some? <==> entry.Some?
    ensures r.Some? ==> |r.value| <= |entry.value|
  {
    match entry
    case None => DecodeSafelyArrayIfPresent<T, E>(Success(None))
    case Some(elements) => DecodeSafelyArrayIfPresent(Success(Some(Wrap(elements))))
  }

  /** Forwarding to the array helper, a present array keeps the elements that decoded. */
  lemma ByKeyKeepsSuccesses<T, E>(entry: Option<seq<Result<T, E>>>)
    ensures entry.None? ==> ByKey(entry).None?
    ensures entry.Some? ==> ByKey(entry) == Some(Successes(entry.value))
  {
    if entry.Some? {
      WrapResultsInverse(entry.value, []);
    }
  }

  /** As written, one failed element loses the whole array; the two agree exactly when none fails. */
  lemma ByKeyAsWrittenDropsArray<T, E>(elements: seq<Result<T, E>>)
    ensures ByKeyAsWritten(Some(elements)) == ByKey(Some(elements)) <==>
      forall k :: 0 <= k < |elements| ==> elements[k].Success?
    ensures (exists k :: 0 <= k < |elements| && elements[k].Failure?) ==> ByKeyAsWritten(Some(elements)).None?
  {
    ByKeyKeepsSuccesses(Some(elements));
  }

  /** The array `[1, <failure>]` under a key: as written nil, forwarded `[1]`. */
  lemma ByKeyExample<E>(e: E)
    ensures ByKeyAsWritten(Some([Success(1), Failure(e)])) == None
    ensures ByKey(Some([Success(1), Failure(e)])) == Some([1])
  {
    var elements: seq<Result<int, E>> := [Success(1), Failure(e)];
    ByKeyAsWrittenDropsArray(elements);
    ByKeyKeepsSuccesses(Some(elements));
    assert elements[..1] == [Success(1)] && elements[..1][..0] == [];
    assert Successes(elements) == [1];
  }
}
