/**
 * The enum coding defaults of Sources/CodableExtensions/CodableEnum.swift.
 *
 * An enum is given by its cases in `allCases` order and the raw value of each
 * case (`rawValue`). A decoder is reduced to the outcome of reading one raw
 * value from a single-value container, an encoder to the value written.
 */
module CodableEnum {
  import opened Wrappers

  /** The errors decoding can end in: one raised while reading the raw value, or `dataCorrupted`. */
  datatype DecodingError<E> = Underlying(error: E) | DataCorrupted(debugDescription: string)

  /** The index of the first case, in `allCases` order, whose raw value is `raw`. */
  function FirstMatch<C, R(==)>(allCases: seq<C>, rawValue: C -> R, raw: R): (r: Option<nat>)
    ensures r.Some? ==>
      r.value < |allCases| && rawValue(allCases[r.value]) == raw &&
      (forall j :: 0 <= j < r.value ==> rawValue(allCases[j]) != raw)
    ensures r.None? ==> forall j :: 0 <= j < |allCases| ==> rawValue(allCases[j]) != raw
    decreases |allCases|
  {
    if allCases == [] then None
    else if rawValue(allCases[0]) == raw then Some(0)
    else match FirstMatch(allCases[1..], rawValue, raw)
      case None => None
      case Some(i) => Some(i + 1)
  }

  /**
   * `UnknownCaseRepresentable.init(rawValue:)`: the first case with that raw
   * value, or `unknownCase` when there is none; it never fails.
   */
  function UnknownCaseInit<C, R(==)>(allCases: seq<C>, rawValue: C -> R, unknownCase: C, raw: R): (c: C)
    ensures (exists j :: 0 <= j < |allCases| && rawValue(allCases[j]) == raw) ==>
      rawValue(c) == raw && c in allCases
    ensures (forall j :: 0 <= j < |allCases| ==> rawValue(allCases[j]) != raw) ==> c == unknownCase
  {
    match FirstMatch(allCases, rawValue, raw)
    case Some(i) => allCases[i]
    case None => unknownCase
  }

  /** Among cases sharing a raw value, the one listed first wins. */
  lemma UnknownCaseInitFirst<C, R>(allCases: seq<C>, rawValue: C -> R, unknownCase: C, raw: R, i: nat)
    requires i < |allCases| && rawValue(allCases[i]) == raw
    requires forall j :: 0 <= j < i ==> rawValue(allCases[j]) != raw
    ensures UnknownCaseInit(allCases, rawValue, unknownCase, raw) == allCases[i]
  {
    var m := FirstMatch(allCases, rawValue, raw);
    assert m.Some?;
  }

  /**
   * `EnumDecodable.init(from:)`: reads the raw value (an error there
   * propagates), then takes the case `init(rawValue:)` gives, else
   * `defaultDecoderValue`, else fails with `dataCorrupted`.
   */
  function DecodeEnum<C, R, E>(read: Result<R, E>, initRawValue: R -> Option<C>, defaultDecoderValue: Option<C>)
    : (r: Result<C, DecodingError<E>>)
    ensures read.Failure? ==> r == Failure(Underlying(read.error))
    ensures read.Success? && initRawValue(read.value).Some? ==> r == Success(initRawValue(read.value).value)
    ensures read.Success? && initRawValue(read.value).None? ==>
      r == if defaultDecoderValue.Some? then Success(defaultDecoderValue.value) else Failure(DataCorrupted("No default enum value provided"))
    ensures r.Failure? ==> (r.error.DataCorrupted? <==> read.Success? && defaultDecoderValue.None?)
  {
    match read
    case Failure(e) => Failure(Underlying(e))
    case Success(value) =>
      match initRawValue(value)
      case Some(primary) => Success(primary)
      case None =>
        match defaultDecoderValue
        case Some(d) => Success(d)
        case None => Failure(DataCorrupted("No default enum value provided"))
  }

  /** `EnumDecodable.defaultDecoderValue` when a type does not override it. */
  function NoDefault<C>(): Option<C>
  {
    None
  }

  /** Without an override, a raw value that names no case is an error. */
  lemma UnknownRawValueThrows<C, R, E>(raw: R, initRawValue: R -> Option<C>)
    requires initRawValue(raw).None?
    ensures DecodeEnum<C, R, E>(Success(raw), initRawValue, NoDefault()).Failure?
    ensures DecodeEnum<C, R, E>(Success(raw), initRawValue, NoDefault()).error.DataCorrupted?
  {
  }

  /** `EnumEncodable.encode(to:)`: the single value written is the raw value. */
  function EncodeEnum<C, R>(c: C, rawValue: C -> R): R
  {
    rawValue(c)
  }

  /** The `init(rawValue:)` of an `UnknownCaseRepresentable` type, as a failable initializer that never fails. */
  function UnknownCaseInitializer<C, R(==, !new)>(allCases: seq<C>, rawValue: C -> R, unknownCase: C): R -> Option<C>
  {
    raw => Some(UnknownCaseInit(allCases, rawValue, unknownCase, raw))
  }

  /**
   * For an `UnknownCaseRepresentable` type, decoding fails only when the raw
   * value cannot be read: `defaultDecoderValue` is never consulted.
   */
  lemma UnknownCaseNeverCorrupted<C, R(!new), E>(allCases: seq<C>, rawValue: C -> R, unknownCase: C,
                                                read: Result<R, E>, defaultDecoderValue: Option<C>)
    ensures var r := DecodeEnum(read, UnknownCaseInitializer(allCases, rawValue, unknownCase), defaultDecoderValue);
      (r.Failure? <==> read.Failure?) &&
      (read.Success? ==> r == Success(UnknownCaseInit(allCases, rawValue, unknownCase, read.value)))
  {
  }

  /**
   * Encoding then decoding gives the case back, for an `UnknownCaseRepresentable`
   * type whose listed cases have distinct raw values.
   */
  lemma EncodeThenDecode<C, R(!new), E>(allCases: seq<C>, rawValue: C -> R, unknownCase: C,
                                       c: C, defaultDecoderValue: Option<C>)
    requires c in allCases
    requires forall i, j :: 0 <= i < j < |allCases| ==> rawValue(allCases[i]) != rawValue(allCases[j])
    ensures DecodeEnum<C, R, E>(Success(EncodeEnum(c, rawValue)),
      UnknownCaseInitializer(allCases, rawValue, unknownCase), defaultDecoderValue) == Success(c)
  {
    var i :| 0 <= i < |allCases| && allCases[i] == c;
    UnknownCaseInitFirst(allCases, rawValue, unknownCase, rawValue(c), i);
  }
}
