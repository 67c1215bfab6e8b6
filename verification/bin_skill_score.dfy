/** `BinSkillScore`: the running sums of one bin of forecast/observation
    pairs and the error statistics derived from them. Sample values are
    exact reals; the residual sums may become non-finite, because without an
    installed capacity the difference is divided by the observed value,
    which may be 0. */
module BinSkillScores {
  import opened Wrappers
  import opened Skills

  /** A double sum that is a number, or that has become infinite or NaN
      (and stays so whatever is added to it). */
  datatype Extended = Finite(value: real) | NonFinite

  function Plus(a: Extended, b: Extended): (r: Extended)
    ensures r.Finite? <==> a.Finite? && b.Finite?
    ensures r.Finite? ==> r.value == a.value + b.value
  {
    if a.Finite? && b.Finite? then Finite(a.value + b.value) else NonFinite
  }

  function Abs(x: real): (r: real)
    ensures r >= 0.0 && (r == x || r == -x)
  {
    if x < 0.0 then -x else x
  }

  datatype BinSkillScore = BinSkillScore(
    SkillId: int,
    SkillIdLabel: string,
    InstalledCapacity: int,
    SumDiff: real,
    SumAbsDiff: real,
    SumSqDiff: real,
    SumResidualError: Extended,
    SumAbsResidualError: Extended,
    SumSqResidualError: Extended,
    NrOfOccurrences: int)

  /** All six sums and the count are zero. */
  predicate Fresh(b: BinSkillScore) {
    && b.SumDiff == 0.0 && b.SumAbsDiff == 0.0 && b.SumSqDiff == 0.0
    && b.SumResidualError == Finite(0.0) && b.SumAbsResidualError == Finite(0.0)
    && b.SumSqResidualError == Finite(0.0) && b.NrOfOccurrences == 0
  }

  /** The same bin: id, label and capacity agree. */
  predicate SameBin(a: BinSkillScore, b: BinSkillScore) {
    a.SkillId == b.SkillId && a.SkillIdLabel == b.SkillIdLabel && a.InstalledCapacity == b.InstalledCapacity
  }

  /** The constructor; a capacity of 0 (the default) means none. */
  function New(skillId: int, skillIdLabel: string, installedCapacity: int): (b: BinSkillScore)
    ensures Fresh(b)
    ensures b.SkillId == skillId && b.SkillIdLabel == skillIdLabel && b.InstalledCapacity == installedCapacity
  {
    BinSkillScore(skillId, skillIdLabel, installedCapacity, 0.0, 0.0, 0.0, Finite(0.0), Finite(0.0), Finite(0.0), 0)
  }

  // ---------------------------------------------------------------------
  // Registering samples

  /** The normalised difference: the difference over the installed capacity
      when there is one, otherwise over the observed value; dividing by an
      observed 0 gives a non-finite double. */
  function Residual(capacity: int, actual: real, forecast: real): (e: Extended)
    ensures capacity > 0 ==> e.Finite? && e.value * capacity as real == actual - forecast
    ensures capacity <= 0 ==> (e.Finite? <==> actual != 0.0)
    ensures e.Finite? <==> Divisor(capacity, actual) != 0.0
    ensures e.Finite? ==> e.value * Divisor(capacity, actual) == actual - forecast
    ensures e.Finite? ==> Abs(e.value) * Abs(Divisor(capacity, actual)) == Abs(actual - forecast)
    ensures e.Finite? ==> (e.value * e.value) * (Divisor(capacity, actual) * Divisor(capacity, actual)) == (actual - forecast) * (actual - forecast)
  {
    var d := actual - forecast;
    var s := Divisor(capacity, actual);
    if s == 0.0 then NonFinite
    else
      var q := d / s;
      DivMul(d, s);
      ProductCarries(q, s, d);
      assert capacity > 0 ==> s == capacity as real;
      assert capacity <= 0 ==> s == actual;
      Finite(q)
  }

  /** What the difference is divided by: the capacity when there is one,
      otherwise the observed value (0 only when there is no capacity and the
      observed value is 0). */
  function Divisor(capacity: int, actual: real): real {
    if capacity > 0 then capacity as real else actual
  }

  /** Dividing by a non-zero number and multiplying back. */
  lemma DivMul(d: real, s: real)
    requires s != 0.0
    ensures (d / s) * s == d
  {
  }

  /** A product `x * y == z` carries over to absolute values and squares. */
  lemma ProductCarries(x: real, y: real, z: real)
    requires x * y == z
    ensures Abs(x) * Abs(y) == Abs(z)
    ensures (x * x) * (y * y) == z * z
  {
    assert (x * x) * (y * y) == (x * y) * (x * y);
  }

  /** `Register(actual, forecast)`. The count always goes up by one and every
      sum takes the sample: the source's early return for `|actual| < 0`
      can never be taken, so no counted sample is dropped. The remaining
      residual sums are described by `RegisterNormalises`. */
  function Register(b: BinSkillScore, actual: real, forecast: real): (r: BinSkillScore)
    ensures SameBin(r, b)
    ensures r.NrOfOccurrences == b.NrOfOccurrences + 1
    ensures r.SumDiff - b.SumDiff == actual - forecast
    ensures r.SumAbsDiff - b.SumAbsDiff == Abs(actual - forecast)
    ensures r.SumSqDiff - b.SumSqDiff == (actual - forecast) * (actual - forecast)
    ensures b.InstalledCapacity > 0 && b.SumResidualError.Finite? ==>
      r.SumResidualError.Finite? && (r.SumResidualError.value - b.SumResidualError.value) * b.InstalledCapacity as real == actual - forecast
    ensures b.InstalledCapacity > 0 && b.SumAbsResidualError.Finite? ==>
      r.SumAbsResidualError.Finite? && (r.SumAbsResidualError.value - b.SumAbsResidualError.value) * b.InstalledCapacity as real == Abs(actual - forecast)
    ensures b.InstalledCapacity <= 0 && actual == 0.0 ==>
      r.SumResidualError.NonFinite? && r.SumAbsResidualError.NonFinite? && r.SumSqResidualError.NonFinite?
  {
    var diff := actual - forecast;
    var residuals := AddResiduals(b, actual, forecast);
    b.(NrOfOccurrences := b.NrOfOccurrences + 1,
       SumDiff := b.SumDiff + diff,
       SumAbsDiff := b.SumAbsDiff + Abs(diff),
       SumSqDiff := b.SumSqDiff + diff * diff,
       SumResidualError := residuals.0,
       SumAbsResidualError := residuals.1,
       SumSqResidualError := residuals.2)
  }

  /** The three residual sums after one sample, as `Register` needs them:
      with a capacity the plain and absolute sums grow by the difference
      over it; without one, an observed 0 makes all three non-finite. */
  function AddResiduals(b: BinSkillScore, actual: real, forecast: real): (r: (Extended, Extended, Extended))
    ensures r.0 == AddResidual(b.SumResidualError, b.InstalledCapacity, actual, forecast)
    ensures r.1 == AddAbsResidual(b.SumAbsResidualError, b.InstalledCapacity, actual, forecast)
    ensures r.2 == AddSqResidual(b.SumSqResidualError, b.InstalledCapacity, actual, forecast)
    ensures b.InstalledCapacity > 0 && b.SumResidualError.Finite? ==>
      r.0.Finite? && (r.0.value - b.SumResidualError.value) * b.InstalledCapacity as real == actual - forecast
    ensures b.InstalledCapacity > 0 && b.SumAbsResidualError.Finite? ==>
      r.1.Finite? && (r.1.value - b.SumAbsResidualError.value) * b.InstalledCapacity as real == Abs(actual - forecast)
    ensures b.InstalledCapacity <= 0 && actual == 0.0 ==> r.0.NonFinite? && r.1.NonFinite? && r.2.NonFinite?
  {
    (AddResidual(b.SumResidualError, b.InstalledCapacity, actual, forecast),
     AddAbsResidual(b.SumAbsResidualError, b.InstalledCapacity, actual, forecast),
     AddSqResidual(b.SumSqResidualError, b.InstalledCapacity, actual, forecast))
  }

  /** `SumResidualError += normalizedDiff`. */
  function AddResidual(sum: Extended, capacity: int, actual: real, forecast: real): (r: Extended)
    ensures r.Finite? <==> sum.Finite? && Divisor(capacity, actual) != 0.0
    ensures r.Finite? ==> (r.value - sum.value) * Divisor(capacity, actual) == actual - forecast
  {
    Plus(sum, Residual(capacity, actual, forecast))
  }

  /** `SumAbsResidualError += Math.Abs(normalizedDiff)`. */
  function AddAbsResidual(sum: Extended, capacity: int, actual: real, forecast: real): (r: Extended)
    ensures r.Finite? <==> sum.Finite? && Divisor(capacity, actual) != 0.0
    ensures r.Finite? ==> (r.value - sum.value) * Abs(Divisor(capacity, actual)) == Abs(actual - forecast)
  {
    var e := Residual(capacity, actual, forecast);
    Plus(sum, if e.Finite? then Finite(Abs(e.value)) else NonFinite)
  }

  /** `SumSqResidualError += normalizedDiff * normalizedDiff`. */
  function AddSqResidual(sum: Extended, capacity: int, actual: real, forecast: real): (r: Extended)
    ensures r.Finite? <==> sum.Finite? && Divisor(capacity, actual) != 0.0
    ensures r.Finite? ==>
      (r.value - sum.value) * (Divisor(capacity, actual) * Divisor(capacity, actual)) == (actual - forecast) * (actual - forecast)
  {
    var e := Residual(capacity, actual, forecast);
    Plus(sum, if e.Finite? then Finite(e.value * e.value) else NonFinite)
  }

  /** The squared residual sum grows by the squared difference over the
      squared divisor. */
  lemma RegisterSqResidual(b: BinSkillScore, actual: real, forecast: real)
    ensures var r := Register(b, actual, forecast);
      b.InstalledCapacity > 0 && b.SumSqResidualError.Finite? ==>
      r.SumSqResidualError.Finite? &&
      (r.SumSqResidualError.value - b.SumSqResidualError.value) * (b.InstalledCapacity as real * b.InstalledCapacity as real) == (actual - forecast) * (actual - forecast)
    ensures var r := Register(b, actual, forecast);
      b.InstalledCapacity <= 0 && actual != 0.0 && b.SumSqResidualError.Finite? ==>
      r.SumSqResidualError.Finite? &&
      (r.SumSqResidualError.value - b.SumSqResidualError.value) * (actual * actual) == (actual - forecast) * (actual - forecast)
  {
    var sum := AddSqResidual(b.SumSqResidualError, b.InstalledCapacity, actual, forecast);
    assert Register(b, actual, forecast).SumSqResidualError == sum;
    if b.InstalledCapacity > 0 {
      assert Divisor(b.InstalledCapacity, actual) == b.InstalledCapacity as real;
    } else {
      assert Divisor(b.InstalledCapacity, actual) == actual;
    }
  }

  /** Without a capacity, a non-zero observed value normalises the
      difference and its absolute value. */
  lemma RegisterWithoutCapacity(b: BinSkillScore, actual: real, forecast: real)
    ensures var r := Register(b, actual, forecast);
      b.InstalledCapacity <= 0 && actual != 0.0 && b.SumResidualError.Finite? ==>
      r.SumResidualError.Finite? && (r.SumResidualError.value - b.SumResidualError.value) * actual == actual - forecast
    ensures var r := Register(b, actual, forecast);
      b.InstalledCapacity <= 0 && actual != 0.0 && b.SumAbsResidualError.Finite? ==>
      r.SumAbsResidualError.Finite? && (r.SumAbsResidualError.value - b.SumAbsResidualError.value) * Abs(actual) == Abs(actual - forecast)
  {
  }

  /** The residual sums Register does not describe in its own contract: the
      squared residual with a capacity, and all three residuals without one
      but with a non-zero observed value, where the difference is divided by
      that value. (Split over two lemmas to keep each proof small.) */
  lemma RegisterNormalises(b: BinSkillScore, actual: real, forecast: real)
    ensures var r := Register(b, actual, forecast);
      b.InstalledCapacity > 0 && b.SumSqResidualError.Finite? ==>
      r.SumSqResidualError.Finite? &&
      (r.SumSqResidualError.value - b.SumSqResidualError.value) * (b.InstalledCapacity as real * b.InstalledCapacity as real) == (actual - forecast) * (actual - forecast)
    ensures var r := Register(b, actual, forecast);
      b.InstalledCapacity <= 0 && actual != 0.0 && b.SumResidualError.Finite? ==>
      r.SumResidualError.Finite? && (r.SumResidualError.value - b.SumResidualError.value) * actual == actual - forecast
    ensures var r := Register(b, actual, forecast);
      b.InstalledCapacity <= 0 && actual != 0.0 && b.SumAbsResidualError.Finite? ==>
      r.SumAbsResidualError.Finite? && (r.SumAbsResidualError.value - b.SumAbsResidualError.value) * Abs(actual) == Abs(actual - forecast)
    ensures var r := Register(b, actual, forecast);
      b.InstalledCapacity <= 0 && actual != 0.0 && b.SumSqResidualError.Finite? ==>
      r.SumSqResidualError.Finite? &&
      (r.SumSqResidualError.value - b.SumSqResidualError.value) * (actual * actual) == (actual - forecast) * (actual - forecast)
  {
    RegisterSqResidual(b, actual, forecast);
    RegisterWithoutCapacity(b, actual, forecast);
  }

  /** One observed/forecast pair. */
  datatype Sample = Sample(actual: real, forecast: real)

  /** Registering a run of samples, first to last. */
  function RegisterAll(b: BinSkillScore, samples: seq<Sample>): (r: BinSkillScore)
    ensures SameBin(r, b)
    ensures r.NrOfOccurrences == b.NrOfOccurrences + |samples|
    decreases |samples|
  {
    if |samples| == 0 then b
    else RegisterAll(Register(b, samples[0].actual, samples[0].forecast), samples[1..])
  }

  /** Registering two runs one after the other is registering their
      concatenation. */
  lemma {:induction false} RegisterAllAppend(b: BinSkillScore, xs: seq<Sample>, ys: seq<Sample>)
    ensures RegisterAll(b, xs + ys) == RegisterAll(RegisterAll(b, xs), ys)
    decreases |xs|
  {
    if |xs| > 0 {
      var b1 := Register(b, xs[0].actual, xs[0].forecast);
      RegisterAllAppend(b1, xs[1..], ys);
      assert (xs + ys)[0] == xs[0];
      assert (xs + ys)[1..] == xs[1..] + ys;
    } else {
      assert xs + ys == ys;
    }
  }

  // ---------------------------------------------------------------------
  // Reference sums

  function SumDiffOf(samples: seq<Sample>): real
    decreases |samples|
  {
    if |samples| == 0 then 0.0
    else (samples[0].actual - samples[0].forecast) + SumDiffOf(samples[1..])
  }

  function SumAbsDiffOf(samples: seq<Sample>): real
    decreases |samples|
  {
    if |samples| == 0 then 0.0
    else Abs(samples[0].actual - samples[0].forecast) + SumAbsDiffOf(samples[1..])
  }

  function SumSqDiffOf(samples: seq<Sample>): real
    decreases |samples|
  {
    if |samples| == 0 then 0.0
    else
      var d := samples[0].actual - samples[0].forecast;
      d * d + SumSqDiffOf(samples[1..])
  }

  /** The raw sums of a run are the bin's sums plus the run's own sums of
      differences, absolute differences and squared differences. */
  lemma {:induction false} RegisterAllSums(b: BinSkillScore, samples: seq<Sample>)
    ensures RegisterAll(b, samples).SumDiff == b.SumDiff + SumDiffOf(samples)
    ensures RegisterAll(b, samples).SumAbsDiff == b.SumAbsDiff + SumAbsDiffOf(samples)
    ensures RegisterAll(b, samples).SumSqDiff == b.SumSqDiff + SumSqDiffOf(samples)
    decreases |samples|
  {
    if |samples| > 0 {
      RegisterAllSums(Register(b, samples[0].actual, samples[0].forecast), samples[1..]);
    }
  }

  // ---------------------------------------------------------------------
  // Merging

  /** `Merge(other)`: every sum and the count are added component-wise; the
      bin keeps its own id, label and capacity. */
  function Merge(a: BinSkillScore, b: BinSkillScore): (r: BinSkillScore)
    ensures SameBin(r, a)
    ensures r.NrOfOccurrences == a.NrOfOccurrences + b.NrOfOccurrences
    ensures r.SumDiff == a.SumDiff + b.SumDiff
    ensures r.SumAbsDiff == a.SumAbsDiff + b.SumAbsDiff
    ensures r.SumSqDiff == a.SumSqDiff + b.SumSqDiff
    ensures r.SumResidualError == Plus(a.SumResidualError, b.SumResidualError)
    ensures r.SumAbsResidualError == Plus(a.SumAbsResidualError, b.SumAbsResidualError)
    ensures r.SumSqResidualError == Plus(a.SumSqResidualError, b.SumSqResidualError)
  {
    a.(SumDiff := a.SumDiff + b.SumDiff,
       SumAbsDiff := a.SumAbsDiff + b.SumAbsDiff,
       SumSqDiff := a.SumSqDiff + b.SumSqDiff,
       SumResidualError := Plus(a.SumResidualError, b.SumResidualError),
       SumAbsResidualError := Plus(a.SumAbsResidualError, b.SumAbsResidualError),
       SumSqResidualError := Plus(a.SumSqResidualError, b.SumSqResidualError),
       NrOfOccurrences := a.NrOfOccurrences + b.NrOfOccurrences)
  }

  /** Merging a fresh bin changes nothing. */
  lemma MergeFresh(a: BinSkillScore, f: BinSkillScore)
    requires Fresh(f)
    ensures Merge(a, f) == a
  {
  }

  /** The order in which bins are merged in does not matter. */
  lemma MergeOrder(a: BinSkillScore, b: BinSkillScore, c: BinSkillScore)
    ensures Merge(Merge(a, b), c) == Merge(Merge(a, c), b)
  {
  }

  /** Registering a sample before or after a merge gives the same bin, when
      the merged-in bin has the same capacity. */
  lemma MergeRegister(a: BinSkillScore, c: BinSkillScore, s: Sample)
    requires a.InstalledCapacity == c.InstalledCapacity
    ensures Merge(a, Register(c, s.actual, s.forecast)) == Register(Merge(a, c), s.actual, s.forecast)
  {
  }

  lemma {:induction false} MergeRegisterAll(a: BinSkillScore, c: BinSkillScore, samples: seq<Sample>)
    requires a.InstalledCapacity == c.InstalledCapacity
    ensures Merge(a, RegisterAll(c, samples)) == RegisterAll(Merge(a, c), samples)
    decreases |samples|
  {
    if |samples| > 0 {
      var s := samples[0];
      var c1 := Register(c, s.actual, s.forecast);
      MergeRegisterAll(a, c1, samples[1..]);
      MergeRegister(a, c, s);
    }
  }

  /** Two bins of the same capacity that start fresh and take two runs of
      samples merge into the bin that takes both runs, first one then the
      other: merging loses and double-counts nothing. */
  lemma MergeOfRuns(b1: BinSkillScore, b2: BinSkillScore, xs: seq<Sample>, ys: seq<Sample>)
    requires Fresh(b2) && b1.InstalledCapacity == b2.InstalledCapacity
    ensures Merge(RegisterAll(b1, xs), RegisterAll(b2, ys)) == RegisterAll(b1, xs + ys)
  {
    var a := RegisterAll(b1, xs);
    MergeRegisterAll(a, b2, ys);
    MergeFresh(a, b2);
    RegisterAllAppend(b1, xs, ys);
  }

  // ---------------------------------------------------------------------
  // Invariants

  /** What every bin built from a fresh one by `Register` and `Merge`
      satisfies: a non-negative count, non-negative absolute and squared
      sums, the sum of differences bounded by the sum of their absolute
      values, and residual sums that are all finite or all not. */
  predicate Valid(b: BinSkillScore) {
    && b.NrOfOccurrences >= 0
    && b.SumAbsDiff >= 0.0 && b.SumSqDiff >= 0.0
    && Abs(b.SumDiff) <= b.SumAbsDiff
    && b.SumResidualError.Finite? == b.SumAbsResidualError.Finite?
    && b.SumResidualError.Finite? == b.SumSqResidualError.Finite?
    && (b.SumResidualError.Finite? ==>
         && b.SumAbsResidualError.value >= 0.0 && b.SumSqResidualError.value >= 0.0
         && Abs(b.SumResidualError.value) <= b.SumAbsResidualError.value)
  }

  lemma FreshValid(b: BinSkillScore)
    requires Fresh(b)
    ensures Valid(b)
  {
  }

  lemma RegisterValid(b: BinSkillScore, actual: real, forecast: real)
    requires Valid(b)
    ensures Valid(Register(b, actual, forecast))
    ensures Register(b, actual, forecast).SumAbsDiff >= b.SumAbsDiff
    ensures Register(b, actual, forecast).SumSqDiff >= b.SumSqDiff
    ensures Register(b, actual, forecast).SumAbsResidualError.Finite? ==>
      b.SumAbsResidualError.Finite?
      && Register(b, actual, forecast).SumAbsResidualError.value >= b.SumAbsResidualError.value
    ensures Register(b, actual, forecast).SumSqResidualError.Finite? ==>
      b.SumSqResidualError.Finite?
      && Register(b, actual, forecast).SumSqResidualError.value >= b.SumSqResidualError.value
  {
    var d := actual - forecast;
    assert d * d >= 0.0;
    var e := Residual(b.InstalledCapacity, actual, forecast);
    if e.Finite? {
      assert e.value * e.value >= 0.0;
    }
  }

  lemma MergeValid(a: BinSkillScore, b: BinSkillScore)
    requires Valid(a) && Valid(b)
    ensures Valid(Merge(a, b))
  {
  }

  lemma {:induction false} RegisterAllValid(b: BinSkillScore, samples: seq<Sample>)
    requires Valid(b)
    ensures Valid(RegisterAll(b, samples))
    ensures RegisterAll(b, samples).SumAbsDiff >= b.SumAbsDiff
    ensures RegisterAll(b, samples).SumSqDiff >= b.SumSqDiff
    ensures RegisterAll(b, samples).SumAbsResidualError.Finite? ==>
      b.SumAbsResidualError.Finite?
      && RegisterAll(b, samples).SumAbsResidualError.value >= b.SumAbsResidualError.value
    ensures RegisterAll(b, samples).SumSqResidualError.Finite? ==>
      b.SumSqResidualError.Finite?
      && RegisterAll(b, samples).SumSqResidualError.value >= b.SumSqResidualError.value
    decreases |samples|
  {
    if |samples| > 0 {
      RegisterValid(b, samples[0].actual, samples[0].forecast);
      RegisterAllValid(Register(b, samples[0].actual, samples[0].forecast), samples[1..]);
    }
  }

  /** With an installed capacity `C`, each residual sum is the matching raw
      sum scaled by `1/C` (squares by `1/C²`). */
  predicate Scaled(b: BinSkillScore) {
    var c := b.InstalledCapacity as real;
    b.InstalledCapacity > 0 ==>
      && b.SumResidualError.Finite? && b.SumResidualError.value * c == b.SumDiff
      && b.SumAbsResidualError.Finite? && b.SumAbsResidualError.value * c == b.SumAbsDiff
      && b.SumSqResidualError.Finite? && b.SumSqResidualError.value * (c * c) == b.SumSqDiff
  }

  lemma FreshScaled(b: BinSkillScore)
    requires Fresh(b)
    ensures Scaled(b)
  {
  }

  lemma RegisterScaled(b: BinSkillScore, actual: real, forecast: real)
    requires Scaled(b)
    ensures Scaled(Register(b, actual, forecast))
  {
    if b.InstalledCapacity > 0 {
      var c := b.InstalledCapacity as real;
      var d := actual - forecast;
      var q := d / c;
      assert q * c == d;
      assert Abs(q) * c == Abs(d);
      assert (q * q) * (c * c) == (q * c) * (q * c);
      var r := Register(b, actual, forecast);
      assert r.SumSqResidualError.value == b.SumSqResidualError.value + q * q;
      assert r.SumSqResidualError.value * (c * c)
        == b.SumSqResidualError.value * (c * c) + (q * q) * (c * c);
    }
  }

  lemma MergeScaled(a: BinSkillScore, b: BinSkillScore)
    requires Scaled(a) && Scaled(b) && a.InstalledCapacity == b.InstalledCapacity
    ensures Scaled(Merge(a, b))
  {
    if a.InstalledCapacity > 0 {
      var c := a.InstalledCapacity as real;
      var r := Merge(a, b);
      assert r.SumResidualError.value * c == a.SumResidualError.value * c + b.SumResidualError.value * c;
      assert r.SumAbsResidualError.value * c == a.SumAbsResidualError.value * c + b.SumAbsResidualError.value * c;
      assert r.SumSqResidualError.value * (c * c)
        == a.SumSqResidualError.value * (c * c) + b.SumSqResidualError.value * (c * c);
    }
  }

  lemma {:induction false} RegisterAllScaled(b: BinSkillScore, samples: seq<Sample>)
    requires Scaled(b)
    ensures Scaled(RegisterAll(b, samples))
    decreases |samples|
  {
    if |samples| > 0 {
      RegisterScaled(b, samples[0].actual, samples[0].forecast);
      RegisterAllScaled(Register(b, samples[0].actual, samples[0].forecast), samples[1..]);
    }
  }

  // ---------------------------------------------------------------------
  // Statistics

  /** A sum over the count as a double: no number when the count is 0
      (0/0 is NaN, x/0 is infinite) or the sum is not finite. */
  function Mean(sum: Extended, n: int): (r: Option<real>)
    ensures r.Some? <==> sum.Finite? && n != 0
    ensures r.Some? ==> r.value * n as real == sum.value
  {
    if sum.NonFinite? || n == 0 then None else Some(sum.value / n as real)
  }

  function Scale(x: Option<real>, k: real): Option<real> {
    if x.Some? then Some(x.value * k) else None
  }

  function Root(x: Option<real>, sqrt: real -> real): Option<real> {
    if x.Some? then Some(sqrt(x.value)) else None
  }

  /** The statistic `m` of a bin; `sqrt` stands for `Math.Sqrt`. */
  function Metric(b: BinSkillScore, m: StatMethod, sqrt: real -> real): Option<real> {
    match m
    case MFE => Mean(Finite(b.SumDiff), b.NrOfOccurrences)
    case MAE => Mean(Finite(b.SumAbsDiff), b.NrOfOccurrences)
    case MSE => Mean(Finite(b.SumSqDiff), b.NrOfOccurrences)
    case RMSE => Root(Mean(Finite(b.SumSqDiff), b.NrOfOccurrences), sqrt)
    case MAPE => Scale(Mean(b.SumAbsResidualError, b.NrOfOccurrences), 100.0)
    case RMSPE => Scale(Root(Mean(b.SumSqResidualError, b.NrOfOccurrences), sqrt), 100.0)
  }

  /** The raw statistics are numbers exactly when the bin holds a sample. */
  lemma MetricsDefined(b: BinSkillScore, sqrt: real -> real)
    ensures forall m :: m in {MFE, MAE, MSE, RMSE} ==> (Metric(b, m, sqrt).Some? <==> b.NrOfOccurrences != 0)
  {
  }

  /** The mean error never exceeds the mean absolute error in size. */
  lemma MeanErrorBound(b: BinSkillScore, sqrt: real -> real)
    requires Valid(b) && b.NrOfOccurrences > 0
    ensures Abs(Metric(b, MFE, sqrt).value) <= Metric(b, MAE, sqrt).value
    ensures Metric(b, MSE, sqrt).value >= 0.0
  {
    var n := b.NrOfOccurrences as real;
    MeanWithin(n, b.SumDiff, b.SumAbsDiff, Metric(b, MFE, sqrt).value, Metric(b, MAE, sqrt).value);
    MeanWithin(n, 0.0, b.SumSqDiff, 0.0, Metric(b, MSE, sqrt).value);
  }

  /** Dividing by the same positive count keeps `|x| <= y`. */
  lemma MeanWithin(n: real, x: real, y: real, mx: real, my: real)
    requires n > 0.0 && mx * n == x && my * n == y && Abs(x) <= y
    ensures Abs(mx) <= my
  {
    assert Abs(mx) * n == Abs(x);
    assert (my - Abs(mx)) * n == y - Abs(x);
  }

  /** With an installed capacity `C` the percentage error is the absolute
      error relative to `C`: MAE = C × MAPE / 100. */
  lemma AbsoluteFromPercentage(b: BinSkillScore, sqrt: real -> real)
    requires Scaled(b) && b.InstalledCapacity > 0 && b.NrOfOccurrences > 0
    ensures Metric(b, MAPE, sqrt).Some? && Metric(b, MAE, sqrt).Some?
    ensures Metric(b, MAE, sqrt).value == b.InstalledCapacity as real * Metric(b, MAPE, sqrt).value / 100.0
  {
    var n := b.NrOfOccurrences as real;
    var c := b.InstalledCapacity as real;
    var meanRes := Mean(b.SumAbsResidualError, b.NrOfOccurrences).value;
    var mae := Metric(b, MAE, sqrt).value;
    assert meanRes * n == b.SumAbsResidualError.value;
    assert mae * n == b.SumAbsDiff;
    assert (c * meanRes) * n == c * (meanRes * n);
    assert (c * meanRes) * n == mae * n;
  }

  /** `GetSkill`: the six statistics in the constructor's order. */
  function GetSkill(b: BinSkillScore, sqrt: real -> real): (s: Skill)
    ensures forall m :: Field(s, m) == Metric(b, m, sqrt)
  {
    Skill(Metric(b, MFE, sqrt), Metric(b, MAE, sqrt), Metric(b, MSE, sqrt),
      Metric(b, RMSE, sqrt), Metric(b, MAPE, sqrt), Metric(b, RMSPE, sqrt))
  }

  /** Reading a statistic from the skill by its code gives the bin's own
      statistic: the arguments line up with the constructor's fields. */
  lemma GetSkillGet(b: BinSkillScore, sqrt: real -> real, m: StatMethod)
    ensures Get(GetSkill(b, sqrt), Code(m)) == Success(Metric(b, m, sqrt))
  {
  }

  // ---------------------------------------------------------------------
  // Printing

  /** Which statistics `Print(bool, ...)` includes. */
  datatype Flags = Flags(mfe: bool, mae: bool, mape: bool, mse: bool, rmse: bool, rmspe: bool)

  /** One statistic's entry: tab, code, tab, formatted value. */
  function Entry(b: BinSkillScore, m: StatMethod, sqrt: real -> real, format: Option<real> -> string): string {
    "\t " + Code(m) + " \t" + format(Metric(b, m, sqrt))
  }

  /** `Print(mfe, mae, mape, mse, rmse, rmspe, useSkillIdLabel)`: the label
      when asked for, then the chosen entries in the order MFE, MAE, MAPE,
      MSE, RMSE, RMSPE; `format` stands for `FormatDouble`. */
  function PrintFlags(b: BinSkillScore, f: Flags, useLabel: bool, sqrt: real -> real, format: Option<real> -> string): string {
    (if useLabel then b.SkillIdLabel else "")
    + (if f.mfe then Entry(b, MFE, sqrt, format) else "")
    + (if f.mae then Entry(b, MAE, sqrt, format) else "")
    + (if f.mape then Entry(b, MAPE, sqrt, format) else "")
    + (if f.mse then Entry(b, MSE, sqrt, format) else "")
    + (if f.rmse then Entry(b, RMSE, sqrt, format) else "")
    + (if f.rmspe then Entry(b, RMSPE, sqrt, format) else "")
  }

  function Only(m: StatMethod): Flags {
    Flags(m == MFE, m == MAE, m == MAPE, m == MSE, m == RMSE, m == RMSPE)
  }

  /** `Print(statMode)`: one statistic chosen by its code; any other name is
      an error. */
  function Print(b: BinSkillScore, statMode: string, useLabel: bool, sqrt: real -> real, format: Option<real> -> string): (r: Result<string>)
    ensures r.Success? <==> exists m: StatMethod :: Code(m) == statMode
  {
    ParseStatMethodFails(statMode);
    var m :- ParseStatMethod(statMode);
    Success(PrintFlags(b, Only(m), useLabel, sqrt, format))
  }

  /** Printing one statistic gives the label (when asked for) and that
      statistic's entry, nothing else. */
  lemma PrintOne(b: BinSkillScore, m: StatMethod, useLabel: bool, sqrt: real -> real, format: Option<real> -> string)
    ensures Print(b, Code(m), useLabel, sqrt, format)
      == Success((if useLabel then b.SkillIdLabel else "") + Entry(b, m, sqrt, format))
  {
    ParseCode(m);
    var head := if useLabel then b.SkillIdLabel else "";
    var e := Entry(b, m, sqrt, format);
    var p := PrintFlags(b, Only(m), useLabel, sqrt, format);
    assert head + "" == head && (head + e) + "" == head + e;
    match m
    case MFE => assert p == head + e + "" + "" + "" + "" + "";
    case MAE => assert p == head + "" + e + "" + "" + "" + "";
    case MAPE => assert p == head + "" + "" + e + "" + "" + "";
    case MSE => assert p == head + "" + "" + "" + e + "" + "";
    case RMSE => assert p == head + "" + "" + "" + "" + e + "";
    case RMSPE => assert p == head + "" + "" + "" + "" + "" + e;
  }
}
