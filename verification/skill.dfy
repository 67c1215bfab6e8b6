/** `Skill`: the six error statistics of one bin, and the names the
    reports use for them. A statistic is `None` where the double would not
    be a finite number (an empty bin divides by zero). */
module Skills {
  import opened Wrappers

  /** The six statistics, named by the codes the reports and the month pivot
      use: "MFE", "MAE", "MAPE", "MSE", "RMSE" and "RMSPE". */
  datatype StatMethod = MFE | MAE | MAPE | MSE | RMSE | RMSPE

  function Code(m: StatMethod): string {
    match m
    case MFE => "MFE"
    case MAE => "MAE"
    case MAPE => "MAPE"
    case MSE => "MSE"
    case RMSE => "RMSE"
    case RMSPE => "RMSPE"
  }

  /** The dispatch on a statistic's code that `Get` and `Print(statMode)`
      share: the six codes and nothing else. */
  function ParseStatMethod(name: string): (r: Result<StatMethod>)
    ensures r.Success? ==> Code(r.value) == name
  {
    if name == "MFE" then Success(MFE)
    else if name == "MAE" then Success(MAE)
    else if name == "MAPE" then Success(MAPE)
    else if name == "MSE" then Success(MSE)
    else if name == "RMSE" then Success(RMSE)
    else if name == "RMSPE" then Success(RMSPE)
    else Failure("Unknown statistical method")
  }

  /** Every code reads back as its statistic, so the parse fails exactly on
      the names that are not codes. */
  lemma ParseCode(m: StatMethod)
    ensures ParseStatMethod(Code(m)) == Success(m)
  {
  }

  lemma ParseStatMethodFails(name: string)
    ensures ParseStatMethod(name).Failure? <==> forall m: StatMethod :: Code(m) != name
  {
    if ParseStatMethod(name).Success? {
      ParseCode(ParseStatMethod(name).value);
    }
  }

  /** The constructor's argument order: MFE, MAE, MSE, RMSE, MAPE, RMSPE. */
  datatype Skill = Skill(
    MeanForecastingError: Option<real>,
    MeanAbsoluteError: Option<real>,
    MeanSquaredError: Option<real>,
    RootMeanSquaredError: Option<real>,
    MeanAbsolutePercentageError: Option<real>,
    RootMeanSquaredPrecentageError: Option<real>)

  /** The field that holds statistic `m`. */
  function Field(s: Skill, m: StatMethod): Option<real> {
    match m
    case MFE => s.MeanForecastingError
    case MAE => s.MeanAbsoluteError
    case MAPE => s.MeanAbsolutePercentageError
    case MSE => s.MeanSquaredError
    case RMSE => s.RootMeanSquaredError
    case RMSPE => s.RootMeanSquaredPrecentageError
  }

  /** Builds a skill from one value per statistic. */
  function FromFields(f: StatMethod -> Option<real>): (s: Skill)
    ensures forall m :: Field(s, m) == f(m)
  {
    Skill(f(MFE), f(MAE), f(MSE), f(RMSE), f(MAPE), f(RMSPE))
  }

  /** `Get(name)`: the field named by a code; any other name is an error. */
  function Get(s: Skill, name: string): (r: Result<Option<real>>)
    ensures r.Success? <==> exists m: StatMethod :: Code(m) == name
    ensures forall m: StatMethod :: Code(m) == name ==> r == Success(Field(s, m))
  {
    ParseStatMethodFails(name);
    var m :- ParseStatMethod(name);
    forall m' | Code(m') == name
      ensures m' == m
    {
      ParseCode(m');
    }
    Success(Field(s, m))
  }

  // ---------------------------------------------------------------------
  // Average

  /** The sum of one statistic over a sequence of skills; `None` when any
      of them is not a number, as a NaN makes the double sum NaN. */
  function SumOf(skills: seq<Skill>, m: StatMethod): Option<real>
    decreases |skills|
  {
    if |skills| == 0 then Some(0.0)
    else
      var x :- Field(skills[0], m);
      var rest :- SumOf(skills[1..], m);
      Some(x + rest)
  }

  /** One statistic's arithmetic mean over a non-empty sequence of skills. */
  function MeanOf(skills: seq<Skill>, m: StatMethod): Option<real>
    requires |skills| > 0
  {
    var sum :- SumOf(skills, m);
    Some(sum / |skills| as real)
  }

  /** `Average`: each statistic's arithmetic mean over the skills.
      `Enumerable.Average` throws on an empty sequence. */
  function Average(skills: seq<Skill>): (r: Result<Skill>)
    ensures r.Success? <==> |skills| > 0
    ensures r.Success? ==> forall m :: Field(r.value, m) == MeanOf(skills, m)
  {
    if |skills| == 0 then Failure("Sequence contains no elements")
    else Success(FromFields(m => MeanOf(skills, m)))
  }

  /** `n` copies of one skill. */
  function Copies(s: Skill, n: nat): (r: seq<Skill>)
    ensures |r| == n
  {
    if n == 0 then [] else [s] + Copies(s, n - 1)
  }

  /** The average of `n` copies of a skill is that skill; in particular the
      average of one skill is that skill. */
  lemma AverageOfCopies(s: Skill, n: nat)
    requires n > 0
    ensures Average(Copies(s, n)) == Success(s)
  {
    var a := Average(Copies(s, n)).value;
    forall m
      ensures Field(a, m) == Field(s, m)
    {
      MeanOfCopies(s, n, m);
    }
    assert Field(a, MFE) == Field(s, MFE) && Field(a, MAE) == Field(s, MAE);
    assert Field(a, MAPE) == Field(s, MAPE) && Field(a, MSE) == Field(s, MSE);
    assert Field(a, RMSE) == Field(s, RMSE) && Field(a, RMSPE) == Field(s, RMSPE);
  }

  lemma MeanOfCopies(s: Skill, n: nat, m: StatMethod)
    requires n > 0
    ensures MeanOf(Copies(s, n), m) == Field(s, m)
  {
    SumOfCopies(s, n, m);
    if Field(s, m).Some? {
      var v := Field(s, m).value;
      var sum := SumOf(Copies(s, n), m).value;
      assert MeanOf(Copies(s, n), m) == Some(sum / n as real);
      ScaledMean(n as real, v, sum);
    } else {
      assert SumOf(Copies(s, n), m).None?;
    }
  }

  /** `n` times a value, over `n`, is the value. */
  lemma ScaledMean(n: real, v: real, sum: real)
    requires n > 0.0 && sum == n * v
    ensures sum / n == v
  {
  }

  lemma AverageOfOne(s: Skill)
    ensures Average([s]) == Success(s)
  {
    AverageOfCopies(s, 1);
    assert Copies(s, 1) == [s];
  }

  lemma {:induction false} SumOfCopies(s: Skill, n: nat, m: StatMethod)
    ensures Field(s, m).Some? ==>
      SumOf(Copies(s, n), m).Some? && SumOf(Copies(s, n), m).value == n as real * Field(s, m).value
    ensures Field(s, m).None? && n > 0 ==> SumOf(Copies(s, n), m).None?
  {
    if n > 0 {
      SumOfCopies(s, n - 1, m);
      assert Copies(s, n)[1..] == Copies(s, n - 1);
    }
  }

  /** The average lies between the least and the greatest value. */
  lemma AverageBounds(skills: seq<Skill>, m: StatMethod, lo: real, hi: real)
    requires |skills| > 0
    requires forall i :: 0 <= i < |skills| ==>
      (Field(skills[i], m).Some? && lo <= Field(skills[i], m).value <= hi)
    ensures MeanOf(skills, m).Some?
    ensures lo <= MeanOf(skills, m).value <= hi
  {
    SumBounds(skills, m, lo, hi);
    var n := |skills| as real;
    var sum := SumOf(skills, m).value;
    assert (sum / n) * n == sum;
    assert (sum / n - lo) * n == sum - n * lo;
    assert (hi - sum / n) * n == n * hi - sum;
  }

  lemma {:induction false} SumBounds(skills: seq<Skill>, m: StatMethod, lo: real, hi: real)
    requires forall i :: 0 <= i < |skills| ==>
      (Field(skills[i], m).Some? && lo <= Field(skills[i], m).value <= hi)
    ensures SumOf(skills, m).Some?
    ensures |skills| as real * lo <= SumOf(skills, m).value <= |skills| as real * hi
    decreases |skills|
  {
    if |skills| > 0 {
      SumBounds(skills[1..], m, lo, hi);
      assert Field(skills[0], m).Some?;
    }
  }
}
