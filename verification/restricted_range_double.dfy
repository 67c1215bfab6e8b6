/** `RestrictedRangeDouble`: a restricted range of sample values with the
    position of the value in the range as a percentage. */
module RestrictedRangeDoubles {
  import opened Wrappers
  import Arith
  import RR = RestrictedRanges

  /** `double.CompareTo` on finite values: the sign of the comparison. */
  function Compare(a: real, b: real): (c: int)
    ensures c < 0 <==> a < b
    ensures c > 0 <==> a > b
  {
    if a < b then -1 else if a > b then 1 else 0
  }

  type Range = RR.RestrictedRange<real>

  /** The constructor delegates to the generic range: it refuses min > max. */
  function New(minValue: real, maxValue: real, value: real): (r: Result<Range>)
    ensures r.Success? <==> minValue <= maxValue
    ensures r.Success? ==> r.value == RR.RestrictedRange(minValue, maxValue, value)
  {
    RR.New(minValue, maxValue, value, Compare)
  }

  /** The setter passes straight through to the generic range. */
  function SetValue(r: Range, v: real): (s: Result<Range>)
    ensures s.Success? <==> r.MinValue <= v <= r.MaxValue
    ensures s.Success? ==> s.value == r.(Value := v)
  {
    RR.SetValue(r, v, Compare)
  }

  /** `ToPercent`: `None` stands for the non-finite quotient of a zero-width
      range. */
  function ToPercent(r: Range): (p: Option<real>)
    ensures p.Some? <==> r.MinValue != r.MaxValue
    ensures p.Some? ==> p.value * (r.MaxValue - r.MinValue) == (r.Value - r.MinValue) * 100.0
  {
    var diff := r.MaxValue - r.MinValue;
    if diff == 0.0 then None else Some((r.Value - r.MinValue) / diff * 100.0)
  }

  /** A proper range whose value lies within it: the percentage is in
      [0, 100], 0 at the minimum and 100 at the maximum. */
  lemma ToPercentBounds(r: Range)
    requires r.MinValue < r.MaxValue && r.MinValue <= r.Value <= r.MaxValue
    ensures ToPercent(r).Some?
    ensures 0.0 <= ToPercent(r).value <= 100.0
    ensures r.Value == r.MinValue ==> ToPercent(r).value == 0.0
    ensures r.Value == r.MaxValue ==> ToPercent(r).value == 100.0
  {
    Arith.RatioBounds(r.Value - r.MinValue, r.MaxValue - r.MinValue);
  }
}
