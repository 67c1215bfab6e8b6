/** The pure parts of the main window's code-behind: reading the hour scope
    the user types, the month abbreviations of the report's column
    headings, and the pivot of the per-month results into one row of
    months per hour bin. */
module MainWindows {
  import opened Wrappers
  import opened Text
  import Int32
  import U = UtcDateTimes
  import B = BinSkillScores
  import H = HourlySkillScoreCalculators

  // ---------------------------------------------------------------------
  // The hour scope

  /** `Enumerable.Range(start, count)`: it throws when the count is
      negative or the last element would pass `int.MaxValue`. */
  function Range(start: int, count: int): (r: Result<seq<int>>)
    ensures r.Success? <==> 0 <= count && start + count - 1 <= Int32.MaxValue
    ensures r.Success? ==> |r.value| == count && forall i :: 0 <= i < count ==> r.value[i] == start + i
  {
    if count < 0 || start + count - 1 > Int32.MaxValue then Failure("ArgumentOutOfRangeException")
    else Success(seq(count, i => start + i))
  }

  /** One comma-separated step, trimmed. With a '-' in it, the parts before
      the first and second '-' are the first and last hour, and the hours
      from one to the other are added; their difference and that plus one
      are unchecked 32-bit sums. Without one, it is a single hour. */
  function StepHours(token: string): (r: Result<seq<int>>)
    ensures r.Success? ==> forall i :: 0 <= i < |r.value| ==> Int32.InRange(r.value[i])
  {
    var step := Trim(token);
    if '-' in step then RangeHours(Split(step, '-'))
    else
      var nr :- ParseInt32(step);
      Success([nr])
  }

  /** The hours of a step split at its '-' signs. A step with a '-' always
      has two parts; fewer would be an index error. */
  function RangeHours(parts: seq<string>): (r: Result<seq<int>>)
    ensures r.Success? ==> forall i :: 0 <= i < |r.value| ==> Int32.InRange(r.value[i])
  {
    if |parts| < 2 then Failure("IndexOutOfRangeException")
    else
      var first :- ParseInt32(parts[0]);
      var last :- ParseInt32(parts[1]);
      Range(first, Count(first, last))
  }

  /** The number of hours of a range: `last - first`, then one more, each
      an unchecked 32-bit sum. */
  function Count(first: int, last: int): (c: int)
    ensures Int32.InRange(last - first) ==> c == Int32.Wrap(last - first + 1)
    ensures Int32.InRange(last - first + 1) ==> c == last - first + 1
  {
    var count := Int32.Wrap(last - first);
    Int32.Wrap(count + 1)
  }

  /** The steps in order, each one's hours after the previous one's; the
      first step that throws ends the whole. */
  function StepsHours(tokens: seq<string>): Result<seq<int>>
    decreases |tokens|
  {
    if |tokens| == 0 then Success([])
    else
      var hours :- StepHours(tokens[0]);
      var rest :- StepsHours(tokens[1..]);
      Success(hours + rest)
  }

  /** `GetScope`: the catch-all bin -1, then the hours of every step of the
      comma-separated text. */
  function GetScope(text: string): (r: Result<seq<int>>)
    ensures r.Success? ==> |r.value| >= 1 && r.value[0] == H.Any
  {
    var hours :- StepsHours(Split(text, ','));
    Success([H.Any] + hours)
  }

  /** Every one of the steps reads on its own. */
  predicate EveryStepReads(tokens: seq<string>) {
    forall i :: 0 <= i < |tokens| ==> StepHours(tokens[i]).Success?
  }

  /** The steps read exactly when every one of them reads. */
  lemma {:induction false} StepsHoursSucceed(tokens: seq<string>)
    ensures StepsHours(tokens).Success? <==> EveryStepReads(tokens)
    decreases |tokens|
  {
    if |tokens| > 0 {
      StepsHoursSucceed(tokens[1..]);
      StepsHoursFirst(tokens);
      EveryStepReadsFirst(tokens);
    }
  }

  lemma StepsHoursFirst(tokens: seq<string>)
    requires |tokens| > 0
    ensures StepsHours(tokens).Success? <==> StepHours(tokens[0]).Success? && StepsHours(tokens[1..]).Success?
  { }

  lemma EveryStepReadsFirst(tokens: seq<string>)
    requires |tokens| > 0
    ensures EveryStepReads(tokens) <==> StepHours(tokens[0]).Success? && EveryStepReads(tokens[1..])
  {
    assert forall i :: 0 <= i < |tokens| - 1 ==> tokens[1..][i] == tokens[i + 1];
  }

  /** The scope reads exactly when every comma-separated step reads: one
      bad step throws for the whole text. */
  lemma GetScopeSucceeds(text: string)
    ensures GetScope(text).Success? <==> EveryStepReads(Split(text, ','))
  {
    StepsHoursSucceed(Split(text, ','));
  }

  /** What a step of the scope stands for: one hour, or the hours from `a`
      to `b`. */
  datatype Step = Hour(h: nat) | Hours(a: nat, b: nat)

  /** A step the window reads back as meant: its hours are 32-bit ints and
      a range runs upwards, short of the one count (`int.MaxValue + 1`) that
      wraps. */
  predicate Readable(s: Step) {
    match s
    case Hour(h) => h <= Int32.MaxValue
    case Hours(a, b) => a <= b <= Int32.MaxValue && b - a < Int32.MaxValue
  }

  /** How a step is typed. */
  function StepText(s: Step): string {
    match s
    case Hour(h) => NatToString(h)
    case Hours(a, b) => NatToString(a) + "-" + NatToString(b)
  }

  /** The hours a step stands for. */
  function Expand(s: Step): seq<int> {
    match s
    case Hour(h) => [h]
    case Hours(a, b) => if a <= b then seq(b - a + 1, i => a + i) else []
  }

  /** The steps typed one after another, separated by commas. */
  function ScopeText(steps: seq<Step>): string {
    Join(StepTexts(steps), ',')
  }

  /** Each step as typed. */
  function StepTexts(steps: seq<Step>): (r: seq<string>)
    ensures |r| == |steps| && forall i :: 0 <= i < |steps| ==> r[i] == StepText(steps[i])
  {
    seq(|steps|, i requires 0 <= i < |steps| => StepText(steps[i]))
  }

  /** All the hours of the steps, in order. */
  function ExpandAll(steps: seq<Step>): seq<int>
    decreases |steps|
  {
    if |steps| == 0 then [] else Expand(steps[0]) + ExpandAll(steps[1..])
  }

  /** A decimal digit is not white space. */
  lemma DigitNotWhite(c: char)
    requires IsDigit(c)
    ensures !IsWhiteSpace(c)
  {
  }

  /** Decimal digits are neither white space nor a separator. */
  lemma DigitsClean(d: string)
    requires AllDigits(d)
    ensures Trim(d) == d && '-' !in d && ',' !in d
  {
    forall i | 0 <= i < |d|
      ensures !IsWhiteSpace(d[i]) && d[i] != '-' && d[i] != ','
    {
      DigitNotWhite(d[i]);
    }
    TrimWhereKeepsClean(d, IsWhiteSpace);
  }

  /** A natural number, typed, reads back as itself. */
  lemma ParseNat(n: nat)
    requires n <= Int32.MaxValue
    ensures ParseInt32(NatToString(n)) == Success(n)
  {
    ParseInt32OfIntToString(n);
  }

  /** A readable single hour reads back as that hour. */
  lemma HourReadsBack(h: nat)
    requires h <= Int32.MaxValue
    ensures StepHours(StepText(Hour(h))) == Success([h])
  {
    DigitsClean(NatToString(h));
    ParseNat(h);
    SingleStep(NatToString(h), h);
  }

  /** Two runs of digits joined by '-' are not trimmed. */
  lemma RangeTextClean(x: string, y: string)
    requires AllDigits(x) && AllDigits(y)
    ensures Trim(x + "-" + y) == x + "-" + y
  {
    var t := x + "-" + y;
    forall i | 0 <= i < |t|
      ensures !IsWhiteSpace(t[i])
    {
      if i < |x| {
        assert t[i] == x[i];
        DigitNotWhite(x[i]);
      } else if i > |x| {
        assert t[i] == y[i - |x| - 1];
        DigitNotWhite(y[i - |x| - 1]);
      }
    }
    TrimWhereKeepsClean(t, IsWhiteSpace);
  }

  /** Two pieces free of '-' joined by one '-' split back into the two. */
  lemma RangeTextSplits(x: string, y: string)
    requires '-' !in x && '-' !in y
    ensures '-' in x + "-" + y && Split(x + "-" + y, '-') == [x, y]
  {
    assert x + "-" + y == x + ['-'] + y;
    assert (x + "-" + y)[|x|] == '-';
    SplitAfterPiece(x, '-', y);
    SplitSingleton(y, '-');
  }

  /** A readable range reads back as its hours. */
  lemma RangeReadsBack(a: nat, b: nat)
    requires Readable(Hours(a, b))
    ensures StepHours(StepText(Hours(a, b))) == Success(Expand(Hours(a, b)))
  {
    RangeTextHours(a, b);
    RangeUpwards(a, b);
  }

  /** A typed range of 32-bit naturals reads as the range from its first
      hour, with the count the source computes. */
  lemma RangeTextHours(a: nat, b: nat)
    requires a <= Int32.MaxValue && b <= Int32.MaxValue
    ensures StepHours(StepText(Hours(a, b))) == Range(a, Count(a, b))
  {
    var x := NatToString(a);
    var y := NatToString(b);
    assert StepText(Hours(a, b)) == x + "-" + y;
    ParseNat(a);
    ParseNat(b);
    RangeTextOf(x, y, a, b);
  }

  /** Two runs of digits joined by '-' read as the range between the
      numbers they stand for. */
  lemma RangeTextOf(x: string, y: string, a: int, b: int)
    requires AllDigits(x) && AllDigits(y)
    requires ParseInt32(x) == Success(a) && ParseInt32(y) == Success(b) && 0 <= a && 0 <= b
    ensures StepHours(x + "-" + y) == Range(a, Count(a, b))
  {
    RangeTextParts(x, y);
    RangeHoursOfParsed([x, y], a, b);
  }

  /** Two runs of digits joined by '-' read as the range of the two runs. */
  lemma RangeTextParts(x: string, y: string)
    requires AllDigits(x) && AllDigits(y)
    ensures StepHours(x + "-" + y) == RangeHours([x, y])
  {
    var t := x + "-" + y;
    RangeTextClean(x, y);
    DigitsNoSeparator(x);
    DigitsNoSeparator(y);
    RangeTextSplits(x, y);
    RangeStep(t);
  }

  /** Decimal digits hold neither separator. */
  lemma DigitsNoSeparator(d: string)
    requires AllDigits(d)
    ensures '-' !in d && ',' !in d
  {
    assert forall i :: 0 <= i < |d| ==> d[i] != '-' && d[i] != ',';
  }

  /** A trimmed step with a '-' reads as the range of its parts. */
  lemma RangeStep(t: string)
    requires Trim(t) == t && '-' in t
    ensures StepHours(t) == RangeHours(Split(t, '-'))
  {
  }

  /** A trimmed step without a '-' reads as one number. */
  lemma SingleStep(t: string, n: int)
    requires Trim(t) == t && '-' !in t && ParseInt32(t) == Success(n)
    ensures StepHours(t) == Success([n])
  {
  }

  /** An upward range of 32-bit naturals holds the hours it stands for. */
  lemma RangeUpwards(a: int, b: int)
    requires 0 <= a <= b <= Int32.MaxValue && b - a < Int32.MaxValue
    ensures Range(a, Count(a, b)) == Success(Expand(Hours(a, b)))
  {
  }

  /** The parts of a range, once read, give the hours between them. */
  lemma RangeHoursOfParsed(parts: seq<string>, a: int, b: int)
    requires |parts| >= 2 && ParseInt32(parts[0]) == Success(a) && ParseInt32(parts[1]) == Success(b)
    requires 0 <= a && 0 <= b
    ensures RangeHours(parts) == Range(a, Count(a, b))
  {
  }

  /** Every readable step reads back as the hours it stands for. */
  lemma StepReadsBack(s: Step)
    requires Readable(s)
    ensures StepHours(StepText(s)) == Success(Expand(s))
  {
    match s
    case Hour(h) => HourReadsBack(h);
    case Hours(a, b) => RangeReadsBack(a, b);
  }

  /** Readable steps, read one after another, give all their hours. */
  lemma {:induction false} StepsReadBack(steps: seq<Step>)
    requires forall i :: 0 <= i < |steps| ==> Readable(steps[i])
    ensures StepsHours(StepTexts(steps)) == Success(ExpandAll(steps))
    decreases |steps|
  {
    if |steps| > 0 {
      var tokens := StepTexts(steps);
      StepReadBackAt(steps);
      StepsReadBack(steps[1..]);
      assert tokens[1..] == StepTexts(steps[1..]);
    }
  }

  lemma StepReadBackAt(steps: seq<Step>)
    requires |steps| > 0 && Readable(steps[0])
    ensures StepHours(StepText(steps[0])) == Success(Expand(steps[0]))
  {
    StepReadsBack(steps[0]);
  }

  /** A typed step holds no comma. */
  lemma StepTextCommaFree(s: Step)
    ensures ',' !in StepText(s)
  {
    match s
    case Hour(h) => DigitsNoSeparator(NatToString(h));
    case Hours(a, b) =>
      var x := NatToString(a);
      var y := NatToString(b);
      assert ',' !in x && ',' !in y by {
        DigitsNoSeparator(x);
        DigitsNoSeparator(y);
      }
      assert StepText(s) == x + "-" + y;
  }

  /** The scope round trip: typing readable steps separated by commas and
      reading them back gives -1 and then every step's hours, in order and
      with repeats kept. */
  lemma GetScopeOfText(steps: seq<Step>)
    requires |steps| >= 1
    requires forall i :: 0 <= i < |steps| ==> Readable(steps[i])
    ensures GetScope(ScopeText(steps)) == Success([H.Any] + ExpandAll(steps))
  {
    var tokens := StepTexts(steps);
    forall i | 0 <= i < |tokens|
      ensures ',' !in tokens[i]
    {
      StepTextCommaFree(steps[i]);
    }
    SplitJoin(tokens, ',');
    StepsReadBack(steps);
  }

  /** A step with a leading minus sign, such as "-1", never reads: the
      text before the '-' is empty. A negative hour cannot be typed. */
  lemma LeadingMinusFails(t: string)
    requires Trim(t) == t && |t| > 0 && t[0] == '-'
    ensures StepHours(t).Failure?
  {
    LeadingMinusSplit(t);
    RangeStep(t);
    EmptyFails();
    FirstPartFails(Split(t, '-'));
  }

  /** Splitting at '-' a text that starts with one gives an empty first part. */
  lemma LeadingMinusSplit(t: string)
    requires |t| > 0 && t[0] == '-'
    ensures '-' in t && |Split(t, '-')| >= 2 && Split(t, '-')[0] == ""
  {
    assert t == "" + ['-'] + t[1..];
    SplitAfterPiece("", '-', t[1..]);
  }

  /** A range whose first part is not a number throws. */
  lemma FirstPartFails(parts: seq<string>)
    requires |parts| >= 2 && ParseInt32(parts[0]).Failure?
    ensures RangeHours(parts).Failure?
  {
  }

  /** An empty part is not a number. */
  lemma EmptyFails()
    ensures ParseInt32("").Failure?
  {
    assert TrimWhere("", IsNumberWhite) == "";
  }

  /** A range one below its start gives no hours at all, and one running
      further downwards throws. */
  lemma DownwardRange(a: nat, b: nat)
    requires b < a <= Int32.MaxValue
    ensures b + 1 == a ==> StepHours(StepText(Hours(a, b))) == Success([])
    ensures b + 1 < a ==> StepHours(StepText(Hours(a, b))).Failure?
  {
    RangeTextHours(a, b);
  }

  /** The one upward range whose count plus one wraps, from 0 to
      `int.MaxValue`, throws instead of giving its hours. */
  lemma WidestRangeFails(a: nat, b: nat)
    requires a <= b <= Int32.MaxValue && b - a == Int32.MaxValue
    ensures StepHours(StepText(Hours(a, b))).Failure?
  {
    RangeTextHours(a, b);
    WrapPastMax();
  }

  lemma WrapPastMax()
    ensures Int32.Wrap(Int32.MaxValue + 1) == Int32.MinValue
  {
  }

  /** Repeats are kept: a range and then an hour inside it, such as
      "1-3,2", read as -1, the range's hours and the hour again, a scope the
      calculator's constructor then refuses. */
  lemma RepeatedHourKept(a: nat, b: nat, h: nat)
    requires Readable(Hours(a, b)) && a <= h <= b
    ensures GetScope(ScopeText([Hours(a, b), Hour(h)])) == Success([H.Any] + Expand(Hours(a, b)) + [h])
  {
    var steps := [Hours(a, b), Hour(h)];
    assert Readable(steps[0]) && Readable(steps[1]);
    GetScopeOfText(steps);
    var range := Expand(Hours(a, b));
    assert ExpandAll(steps) == range + [h] by {
      ExpandAllPair(Hours(a, b), Hour(h));
    }
    assert [H.Any] + (range + [h]) == [H.Any] + range + [h];
  }

  lemma ExpandAllPair(x: Step, y: Step)
    ensures ExpandAll([x, y]) == Expand(x) + Expand(y)
  {
    assert [x, y][1..] == [y];
    assert ExpandAll([y]) == Expand(y) + ExpandAll([]);
  }

  /** The calculator's constructor refuses the scope such a text gives. */
  lemma RepeatedHourRejected(a: nat, b: nat, h: nat, capacity: int)
    requires a <= h <= b
    ensures H.NewCalculator([], [H.Any] + Expand(Hours(a, b)) + [h], capacity, -1, true).Failure?
  {
    var range := Expand(Hours(a, b));
    var scope := [H.Any] + range + [h];
    assert range[h - a] == h;
    var i, j := 1 + (h - a), |scope| - 1;
    assert 0 <= i < j < |scope| && scope[i] == range[h - a] && scope[j] == h;
  }

  // ---------------------------------------------------------------------
  // Month abbreviations

  /** The English month abbreviations, January first. */
  const MonthNames: seq<string> :=
    ["Jan", "Feb", "Mar", "Apr", "May", "Jun", "Jul", "Aug", "Sep", "Oct", "Nov", "Dec"]

  /** `GetMonthAbbrevation`: the abbreviation of a month number; any other
      number throws. */
  function MonthAbbreviation(month: int): (r: Result<string>)
    ensures r.Success? <==> 1 <= month <= 12
    ensures r.Success? ==> |r.value| == 3
  {
    if month == 1 then Success("Jan")
    else if month == 2 then Success("Feb")
    else if month == 3 then Success("Mar")
    else if month == 4 then Success("Apr")
    else if month == 5 then Success("May")
    else if month == 6 then Success("Jun")
    else if month == 7 then Success("Jul")
    else if month == 8 then Success("Aug")
    else if month == 9 then Success("Sep")
    else if month == 10 then Success("Oct")
    else if month == 11 then Success("Nov")
    else if month == 12 then Success("Dec")
    else Failure("Unknown month number")
  }

  /** Each month number gets its entry in the table of abbreviations. */
  lemma MonthAbbreviationTable(month: int)
    requires 1 <= month <= 12
    ensures MonthAbbreviation(month) == Success(MonthNames[month - 1])
  {
  }

  /** The month number an abbreviation stands for, if any. */
  function MonthNumber(name: string): (r: Option<int>)
    ensures r.Some? ==> 1 <= r.value <= 12 && MonthNames[r.value - 1] == name
  {
    if name == "Jan" then Some(1)
    else if name == "Feb" then Some(2)
    else if name == "Mar" then Some(3)
    else if name == "Apr" then Some(4)
    else if name == "May" then Some(5)
    else if name == "Jun" then Some(6)
    else if name == "Jul" then Some(7)
    else if name == "Aug" then Some(8)
    else if name == "Sep" then Some(9)
    else if name == "Oct" then Some(10)
    else if name == "Nov" then Some(11)
    else if name == "Dec" then Some(12)
    else None
  }

  /** An abbreviation reads back as its month. */
  lemma MonthNumberOfAbbreviation(month: int)
    requires 1 <= month <= 12
    ensures MonthNumber(MonthAbbreviation(month).value) == Some(month)
  {
  }

  /** No two months share an abbreviation, so a heading names its month. */
  lemma MonthAbbreviationInjective(a: int, b: int)
    requires MonthAbbreviation(a).Success? && MonthAbbreviation(b).Success?
    ensures MonthAbbreviation(a) == MonthAbbreviation(b) <==> a == b
  {
    MonthNumberOfAbbreviation(a);
    MonthNumberOfAbbreviation(b);
  }

  // ---------------------------------------------------------------------
  // The result pivot

  /** The table the window shows: per bin id, per month, that bin's scores. */
  type Table = map<int, map<U.UtcDateTime, B.BinSkillScore>>

  /** One bin met while walking the results, with the month it is for. */
  datatype Cell = Cell(month: U.UtcDateTime, bin: B.BinSkillScore)

  /** Whether a cell is for the given bin id and month. */
  predicate Hit(c: Cell, id: int, month: U.UtcDateTime) {
    c.bin.SkillId == id && c.month == month
  }

  /** Entering one cell: the row of its bin id is created when missing, and
      the cell is entered only when that row has no entry for its month. */
  function Place(table: Table, c: Cell): (r: Table)
    ensures forall id :: id in table ==> id in r
    ensures forall id, m :: id in table && m in table[id] ==> m in r[id] && r[id][m] == table[id][m]
    ensures c.bin.SkillId in r && c.month in r[c.bin.SkillId]
    ensures forall id, m :: id in r && m in r[id] ==> (id in table && m in table[id]) || Hit(c, id, m)
  {
    var id := c.bin.SkillId;
    if id in table && c.month in table[id] then table
    else table[id := (if id in table then table[id] else map[])[c.month := c.bin]]
  }

  /** The cells entered in the order they are met. */
  function Pivot(cells: seq<Cell>): Table
    decreases |cells|
  {
    if |cells| == 0 then map[] else Place(Pivot(cells[..|cells| - 1]), cells[|cells| - 1])
  }

  /** The table has an entry for a bin id and month exactly when some cell
      is for them. */
  lemma {:induction false} PivotHas(cells: seq<Cell>, id: int, month: U.UtcDateTime)
    ensures (id in Pivot(cells) && month in Pivot(cells)[id])
        <==> exists k :: 0 <= k < |cells| && Hit(cells[k], id, month)
    decreases |cells|
  {
    if |cells| > 0 {
      var init := cells[..|cells| - 1];
      PivotHas(init, id, month);
      if exists k :: 0 <= k < |init| && Hit(init[k], id, month) {
        var k :| 0 <= k < |init| && Hit(init[k], id, month);
        assert cells[k] == init[k];
      }
      if exists k :: 0 <= k < |cells| && Hit(cells[k], id, month) {
        var k :| 0 <= k < |cells| && Hit(cells[k], id, month);
        if k < |init| {
          assert init[k] == cells[k];
        }
      }
    }
  }

  /** The entry is the first cell met for its bin id and month: later ones
      are ignored. */
  lemma {:induction false} PivotKeepsFirst(cells: seq<Cell>, id: int, month: U.UtcDateTime, k: nat)
    requires k < |cells| && Hit(cells[k], id, month)
    requires forall j :: 0 <= j < k ==> !Hit(cells[j], id, month)
    ensures id in Pivot(cells) && month in Pivot(cells)[id] && Pivot(cells)[id][month] == cells[k].bin
    decreases |cells|
  {
    var init := cells[..|cells| - 1];
    if k < |init| {
      assert init[k] == cells[k];
      PivotKeepsFirst(init, id, month, k);
    } else {
      PivotHas(init, id, month);
    }
  }

  /** The worker's results, keyed by month. */
  type Results = map<U.UtcDateTime, H.Calculator>

  /** A set with no members is the empty set. */
  lemma NoMemberEmpty(s: set<int>)
    ensures (forall x :: x !in s) ==> s == {}
  {
    if forall x :: x !in s {
      assert s == {};
    }
  }

  /** Every non-empty set of ints has a smallest element. */
  lemma {:induction false} LeastExists(s: set<int>)
    requires s != {}
    ensures exists m :: m in s && forall x :: x in s ==> m <= x
    decreases |s|
  {
    NoMemberEmpty(s);
    var y :| y in s;
    if s != {y} {
      LeastExists(s - {y});
      var m :| m in s - {y} && forall x :: x in s - {y} ==> m <= x;
      if y < m {
        forall x | x in s
          ensures y <= x
        {
          if x != y {
            assert x in s - {y};
          }
        }
      } else {
        forall x | x in s
          ensures m <= x
        {
          if x != y {
            assert x in s - {y};
          }
        }
      }
    }
  }

  /** The smallest element of a non-empty set of ints. */
  function Least(s: set<int>): (m: int)
    requires s != {}
    ensures m in s && forall x :: x in s ==> m <= x
  {
    LeastExists(s);
    var m :| m in s && forall x :: x in s ==> m <= x;
    m
  }

  /** The keys of a `SortedDictionary<int, _>` in the order it enumerates
      them: ascending (see `AscendingSorted`). */
  function Ascending(s: set<int>): (r: seq<int>)
    ensures forall i :: 0 <= i < |r| ==> r[i] in s
    ensures forall x :: x in s ==> x in r
    decreases |s|
  {
    if s == {} then []
    else
      var m := Least(s);
      var rest := Ascending(s - {m});
      assert forall x :: x in s ==> x == m || x in s - {m};
      [m] + rest
  }

  /** Each key comes once, smallest first. */
  lemma {:induction false} AscendingSorted(s: set<int>)
    ensures forall i, j :: 0 <= i < j < |Ascending(s)| ==> Ascending(s)[i] < Ascending(s)[j]
    decreases |s|
  {
    if s != {} {
      var m := Least(s);
      var rest := Ascending(s - {m});
      AscendingSorted(s - {m});
      assert Ascending(s) == [m] + rest;
      forall i | 0 <= i < |rest|
        ensures m < rest[i]
      {
        assert rest[i] in s - {m};
      }
    }
  }

  /** The bins of one month's calculator, in ascending bin key order. */
  function MonthCells(month: U.UtcDateTime, bins: H.Bins): seq<Cell> {
    var keys := Ascending(bins.Keys);
    seq(|keys|, i requires 0 <= i < |keys| => Cell(month, bins[keys[i]]))
  }

  /** A month's cells are its bins, each once per key. */
  lemma MonthCellsHold(month: U.UtcDateTime, bins: H.Bins, c: Cell)
    ensures c in MonthCells(month, bins) <==> c.month == month && exists k :: k in bins && c.bin == bins[k]
  {
    var keys := Ascending(bins.Keys);
    var r := MonthCells(month, bins);
    if c in r {
      var i :| 0 <= i < |r| && r[i] == c;
      assert keys[i] in bins && c.bin == bins[keys[i]];
    }
    if c.month == month && exists k :: k in bins && c.bin == bins[k] {
      var k :| k in bins && c.bin == bins[k];
      var i :| 0 <= i < |keys| && keys[i] == k;
      assert r[i] == c;
    }
  }

  /** The cells met walking the months in the given order. */
  function ResultCells(results: Results, months: seq<U.UtcDateTime>): (r: seq<Cell>)
    requires forall i :: 0 <= i < |months| ==> months[i] in results
    decreases |months|
  {
    if |months| == 0 then []
    else MonthCells(months[0], results[months[0]].Bins) + ResultCells(results, months[1..])
  }

  /** A cell is met exactly when it is one of the bins of a month walked. */
  lemma {:induction false} ResultCellsHold(results: Results, months: seq<U.UtcDateTime>, c: Cell)
    requires forall i :: 0 <= i < |months| ==> months[i] in results
    ensures c in ResultCells(results, months) <==>
      c.month in months && exists k :: k in results[c.month].Bins && c.bin == results[c.month].Bins[k]
    decreases |months|
  {
    if |months| > 0 {
      ResultCellsHold(results, months[1..], c);
      MonthCellsHold(months[0], results[months[0]].Bins, c);
      assert c.month in months <==> c.month == months[0] || c.month in months[1..];
    }
  }

  /** What the window builds from the worker's outcome; when reading the
      outcome throws, the table stays empty. `months` is the order the
      results' keys are enumerated in. */
  function ResultTable(outcome: Result<Results>, months: seq<U.UtcDateTime>): (r: Table)
    requires outcome.Success? ==> forall i :: 0 <= i < |months| ==> months[i] in outcome.value
    ensures outcome.Failure? ==> r == map[]
  {
    if outcome.Failure? then map[] else Pivot(ResultCells(outcome.value, months))
  }

  /** Every bin is filed under its own key. */
  predicate FiledByKey(results: Results) {
    forall t, k :: t in results && k in results[t].Bins ==> results[t].Bins[k].SkillId == k
  }

  /** When the months walked are exactly the results' keys and every bin
      is filed under its own id, the table holds, for each bin id and
      month, that month's bin with that id, and nothing else. */
  lemma ResultTableHas(results: Results, months: seq<U.UtcDateTime>, id: int, month: U.UtcDateTime)
    requires forall t :: t in results <==> t in months
    requires FiledByKey(results)
    ensures var table := ResultTable(Success(results), months);
      (id in table && month in table[id]) <==> (month in results && id in results[month].Bins)
  {
    var cells := ResultCells(results, months);
    PivotHas(cells, id, month);
    if month in results && id in results[month].Bins {
      var c := Cell(month, results[month].Bins[id]);
      ResultCellsHold(results, months, c);
      var k :| 0 <= k < |cells| && cells[k] == c;
      assert Hit(cells[k], id, month);
    }
    if exists k :: 0 <= k < |cells| && Hit(cells[k], id, month) {
      FirstHitIsFiled(results, months, cells, id, month);
    }
  }

  /** ... and the entry for a bin id and month is that month's bin. */
  lemma ResultTableValue(results: Results, months: seq<U.UtcDateTime>, id: int, month: U.UtcDateTime)
    requires forall t :: t in results <==> t in months
    requires FiledByKey(results)
    ensures var table := ResultTable(Success(results), months);
      id in table && month in table[id] ==>
        month in results && id in results[month].Bins && table[id][month] == results[month].Bins[id]
  {
    var cells := ResultCells(results, months);
    PivotHas(cells, id, month);
    if exists k :: 0 <= k < |cells| && Hit(cells[k], id, month) {
      FirstHitIsFiled(results, months, cells, id, month);
    }
  }

  /** Under `FiledByKey`, every cell for a bin id and month holds that
      month's bin with that id, so the first one does too. */
  lemma FirstHitIsFiled(results: Results, months: seq<U.UtcDateTime>, cells: seq<Cell>, id: int, month: U.UtcDateTime)
    requires forall i :: 0 <= i < |months| ==> months[i] in results
    requires FiledByKey(results)
    requires cells == ResultCells(results, months)
    requires exists k :: 0 <= k < |cells| && Hit(cells[k], id, month)
    ensures month in results && id in results[month].Bins
    ensures id in Pivot(cells) && month in Pivot(cells)[id] && Pivot(cells)[id][month] == results[month].Bins[id]
  {
    var k := FirstHit(cells, id, month);
    ResultCellsHold(results, months, cells[k]);
    PivotKeepsFirst(cells, id, month, k);
  }

  /** The index of the first cell for a bin id and month. */
  function FirstHit(cells: seq<Cell>, id: int, month: U.UtcDateTime): (k: nat)
    requires exists k :: 0 <= k < |cells| && Hit(cells[k], id, month)
    ensures k < |cells| && Hit(cells[k], id, month)
    ensures forall j :: 0 <= j < k ==> !Hit(cells[j], id, month)
    decreases |cells|
  {
    if Hit(cells[0], id, month) then 0
    else
      var k :| 0 <= k < |cells| && Hit(cells[k], id, month);
      assert cells[1..][k - 1] == cells[k];
      1 + FirstHit(cells[1..], id, month)
  }
}
