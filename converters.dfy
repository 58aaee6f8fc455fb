/** The two value converters of the views.  NullReplaceConverter shows a
    placeholder (the converter parameter) for a null value and turns the
    placeholder back into null; EnumerableNullReplaceConverter does the
    forward direction element by element and refuses the backward one.
    A nullable object is an Option; an exception is an Err. */
module Converters {
  import opened Wrappers

  datatype ConvertError =
    | NullReference   // NullReferenceException
    | ArgumentNull    // ArgumentNullException
    | NotSupported    // NotSupportedException

  /** NullReplaceConverter.Convert: value ?? parameter. */
  function NullReplace<T>(value: Option<T>, parameter: Option<T>): (r: Option<T>)
    ensures value.Some? ==> r == value
    ensures value.None? ==> r == parameter
  {
    if value.Some? then value else parameter
  }

  /** NullReplaceConverter.ConvertBack: value.Equals(parameter) ? null :
      value.  A null value is dereferenced and throws; Equals(null) is
      false for any object. */
  function NullReplaceBack<T(==)>(value: Option<T>, parameter: Option<T>): (r: Result<Option<T>, ConvertError>)
    ensures r.Err? <==> value.None?
    ensures r.Err? ==> r.error == NullReference
    ensures r.Ok? && r.value.Some? ==> r.value == value && value != parameter
    ensures r.Ok? && r.value.None? ==> value == parameter
  {
    if value.None? then Err(NullReference)
    else if value == parameter then Ok(None)
    else Ok(value)
  }

  /** Converting forth and back gives the original value whenever it is not
      the placeholder itself; a null value comes back as null. */
  lemma NullReplaceRoundTrip<T>(x: Option<T>, p: Option<T>)
    requires x != p
    ensures NullReplaceBack(NullReplace(x, p), p) == Ok(x)
  {
  }

  /** A value equal to the placeholder does not survive the round trip: it
      comes back as null. */
  lemma NullReplacePlaceholderLost<T>(v: T)
    ensures NullReplaceBack(NullReplace(Some(v), Some(v)), Some(v)) == Ok(None)
  {
  }

  /** EnumerableNullReplaceConverter.Convert: every null element becomes
      the parameter, in place.  A null collection throws. */
  function ReplaceNulls<T>(value: Option<seq<Option<T>>>, parameter: Option<T>): (r: Result<seq<Option<T>>, ConvertError>)
    ensures r.Err? <==> value.None?
    ensures r.Err? ==> r.error == ArgumentNull
  {
    if value.None? then Err(ArgumentNull)
    else Ok(seq(|value.value|, i requires 0 <= i < |value.value| => NullReplace(value.value[i], parameter)))
  }

  /** The result has one element per input element; non-null elements are
      kept at their positions, null ones become the parameter, so with a
      non-null parameter no null is left. */
  lemma ReplaceNullsElements<T>(xs: seq<Option<T>>, p: Option<T>)
    ensures ReplaceNulls(Some(xs), p).Ok?
    ensures |ReplaceNulls(Some(xs), p).value| == |xs|
    ensures forall i :: 0 <= i < |xs| && xs[i].Some? ==> ReplaceNulls(Some(xs), p).value[i] == xs[i]
    ensures forall i :: 0 <= i < |xs| && xs[i].None? ==> ReplaceNulls(Some(xs), p).value[i] == p
    ensures p.Some? ==> forall y :: y in ReplaceNulls(Some(xs), p).value ==> y.Some?
  {
  }

  /** Converting an already converted collection again changes nothing,
      whether or not the parameter is null. */
  lemma ReplaceNullsIdempotent<T>(xs: seq<Option<T>>, p: Option<T>)
    ensures ReplaceNulls(Some(ReplaceNulls(Some(xs), p).value), p) == ReplaceNulls(Some(xs), p)
  {
    var once := ReplaceNulls(Some(xs), p).value;
    var twice := ReplaceNulls(Some(once), p).value;
    assert |twice| == |once|;
    forall i | 0 <= i < |once| ensures twice[i] == once[i] {
    }
    assert twice == once;
  }

  /** EnumerableNullReplaceConverter.ConvertBack always throws. */
  function ReplaceNullsBack<T>(value: Option<seq<Option<T>>>, parameter: Option<T>): (r: Result<seq<Option<T>>, ConvertError>)
    ensures r == Err(NotSupported)
  {
    Err(NotSupported)
  }
}
