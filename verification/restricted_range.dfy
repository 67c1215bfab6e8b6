/** `RestrictedRange<T>`: a value kept between a minimum and a maximum that
    are fixed at construction. The order is that of `IComparable.CompareTo`,
    given as a function whose sign compares its arguments. */
module RestrictedRanges {
  import opened Wrappers

  datatype RestrictedRange<T> = RestrictedRange(MinValue: T, MaxValue: T, Value: T)

  /** What the setter accepts: neither below the minimum nor above the
      maximum. */
  predicate Admits<T>(r: RestrictedRange<T>, v: T, compare: (T, T) -> int) {
    compare(r.MinValue, v) <= 0 && compare(r.MaxValue, v) >= 0
  }

  /** The three-argument constructor: it rejects a minimum above the maximum
      and stores the initial value without checking it. */
  function New<T>(minValue: T, maxValue: T, value: T, compare: (T, T) -> int): (r: Result<RestrictedRange<T>>)
    ensures r.Success? <==> compare(minValue, maxValue) <= 0
    ensures r.Success? ==> r.value.MinValue == minValue && r.value.MaxValue == maxValue && r.value.Value == value
  {
    if compare(minValue, maxValue) > 0 then Failure("minValue")
    else Success(RestrictedRange(minValue, maxValue, value))
  }

  /** The two-argument constructor: the value starts at the minimum. */
  function NewAtMin<T>(minValue: T, maxValue: T, compare: (T, T) -> int): (r: Result<RestrictedRange<T>>)
    ensures r.Success? <==> compare(minValue, maxValue) <= 0
    ensures r.Success? ==> r.value.MinValue == minValue && r.value.MaxValue == maxValue && r.value.Value == minValue
  {
    New(minValue, maxValue, minValue, compare)
  }

  /** The `Value` setter: a value outside the bounds is refused (and the
      range keeps its old value); otherwise only the value changes. */
  function SetValue<T>(r: RestrictedRange<T>, v: T, compare: (T, T) -> int): (s: Result<RestrictedRange<T>>)
    ensures s.Success? <==> Admits(r, v, compare)
    ensures s.Success? ==> s.value.Value == v
    ensures s.Success? ==> s.value.MinValue == r.MinValue && s.value.MaxValue == r.MaxValue
  {
    if 0 < compare(r.MinValue, v) || compare(r.MaxValue, v) < 0 then Failure("value")
    else Success(r.(Value := v))
  }

  /** A run of setter calls, stopping at the first refused value. */
  function SetAll<T>(r: RestrictedRange<T>, vs: seq<T>, compare: (T, T) -> int): Result<RestrictedRange<T>>
    decreases |vs|
  {
    if |vs| == 0 then Success(r)
    else
      var s :- SetValue(r, vs[0], compare);
      SetAll(s, vs[1..], compare)
  }

  /** The bounds never change after construction, whatever values are set,
      and a run that succeeds leaves the last value set; it succeeds exactly
      when every value lies within the bounds. */
  lemma {:induction false} SetAllKeepsBounds<T>(r: RestrictedRange<T>, vs: seq<T>, compare: (T, T) -> int)
    ensures SetAll(r, vs, compare).Success? <==> forall i :: 0 <= i < |vs| ==> Admits(r, vs[i], compare)
    ensures SetAll(r, vs, compare).Success? ==>
      && SetAll(r, vs, compare).value.MinValue == r.MinValue
      && SetAll(r, vs, compare).value.MaxValue == r.MaxValue
      && SetAll(r, vs, compare).value.Value == (if |vs| == 0 then r.Value else vs[|vs| - 1])
    decreases |vs|
  {
    if |vs| > 0 {
      var s := SetValue(r, vs[0], compare);
      if s.Success? {
        SetAllKeepsBounds(s.value, vs[1..], compare);
        assert forall i :: 0 <= i < |vs| - 1 ==> vs[1..][i] == vs[i + 1];
        assert forall v :: Admits(s.value, v, compare) == Admits(r, v, compare);
        if forall i :: 0 <= i < |vs| ==> Admits(r, vs[i], compare) {
          assert forall i :: 0 <= i < |vs[1..]| ==> Admits(s.value, vs[1..][i], compare);
        }
      }
    }
  }
}
