/** `RestrictedRangeInt`: a restricted range of C# `int` values with the
    position of the value in the range as a percentage. */
module RestrictedRangeInts {
  import opened Wrappers
  import Arith
  import Int32
  import RR = RestrictedRanges

  /** `int.CompareTo`: the sign of the comparison. */
  function Compare(a: int, b: int): (c: int)
    ensures c < 0 <==> a < b
    ensures c > 0 <==> a > b
  {
    if a < b then -1 else if a > b then 1 else 0
  }

  type Range = RR.RestrictedRange<int>

  /** The constructor delegates to the generic range: it refuses min > max. */
  function New(minValue: int, maxValue: int, value: int): (r: Result<Range>)
    ensures r.Success? <==> minValue <= maxValue
    ensures r.Success? ==> r.value == RR.RestrictedRange(minValue, maxValue, value)
  {
    RR.New(minValue, maxValue, value, Compare)
  }

  /** The setter passes straight through to the generic range. */
  function SetValue(r: Range, v: int): (s: Result<Range>)
    ensures s.Success? <==> r.MinValue <= v <= r.MaxValue
    ensures s.Success? ==> s.value == r.(Value := v)
  {
    RR.SetValue(r, v, Compare)
  }

  /** `ToPercent`: both differences are taken in 32-bit arithmetic and then
      divided as doubles; `None` stands for the non-finite quotient of a
      zero-width range. */
  function ToPercent(r: Range): (p: Option<real>)
    ensures p.Some? <==> Int32.Wrap(r.MaxValue - r.MinValue) != 0
  {
    var diff := Int32.Wrap(r.MaxValue - r.MinValue);
    var obsDiff := Int32.Wrap(r.Value - r.MinValue);
    if diff == 0 then None else Some(obsDiff as real / diff as real * 100.0)
  }

  /** A range narrower than 2^31 whose value lies within it: the percentage
      is in [0, 100], 0 at the minimum and 100 at the maximum. */
  lemma ToPercentBounds(r: Range)
    requires Int32.InRange(r.MinValue) && Int32.InRange(r.MaxValue)
    requires r.MinValue < r.MaxValue && r.MaxValue - r.MinValue <= Int32.MaxValue
    requires r.MinValue <= r.Value <= r.MaxValue
    ensures ToPercent(r).Some?
    ensures 0.0 <= ToPercent(r).value <= 100.0
    ensures r.Value == r.MinValue ==> ToPercent(r).value == 0.0
    ensures r.Value == r.MaxValue ==> ToPercent(r).value == 100.0
  {
    var diff := r.MaxValue - r.MinValue;
    var obsDiff := r.Value - r.MinValue;
    assert Int32.Wrap(diff) == diff && Int32.Wrap(obsDiff) == obsDiff;
    Arith.RatioBounds(obsDiff as real, diff as real);
  }

  /** The differences wrap for the widest range: with the bounds of `int`
      and the value 0 the percentage comes out above 100. */
  lemma ToPercentOfWidestRange()
    ensures ToPercent(RR.RestrictedRange(Int32.MinValue, Int32.MaxValue, 0)) == Some(214748364800.0)
  {
    assert Int32.Wrap(Int32.MaxValue - Int32.MinValue) == -1;
    assert Int32.Wrap(0 - Int32.MinValue) == Int32.MinValue;
  }
}
