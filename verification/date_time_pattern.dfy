/** `UtcDateTime.GetDateTimePattern`: guessing the `DateTime.ParseExact`
    pattern of a time stamp from its shape. The pattern is built from five
    choices, kept here as a `Pattern` value and rendered to the .NET pattern
    string only at the end. */
module DateTimePatterns {
  import opened Wrappers
  import opened Text

  /** Which date field comes first. */
  datatype DateOrder = YearFirst | DayFirst | MonthFirst

  /** How much of the time of day the stamp carries. */
  datatype TimePrecision = Hours | HoursMinutes | HoursMinutesSeconds | Fraction

  datatype Pattern = Pattern(
    order: DateOrder,
    delimiter: char,
    dateTimeSeparator: char,
    time: TimePrecision,
    zulu: bool)

  /** The date delimiters the inference recognises. */
  const Delimiters: set<char> := {'.', '-', '/', '_'}

  // ---------------------------------------------------------------------
  // Rendering

  function DateText(order: DateOrder, d: char): (s: string)
    ensures |s| == 10
  {
    match order
    case YearFirst => "yyyy" + [d] + "MM" + [d] + "dd"
    case DayFirst => "dd" + [d] + "MM" + [d] + "yyyy"
    case MonthFirst => "MM" + [d] + "dd" + [d] + "yyyy"
  }

  function TimeText(p: TimePrecision): (s: string)
    ensures |s| in {2, 5, 8, 17}
  {
    match p
    case Hours => "HH"
    case HoursMinutes => "HH:mm"
    case HoursMinutesSeconds => "HH:mm:ss"
    case Fraction => "HH:mm:ss.FFFFFFFK"
  }

  /** The .NET pattern string: date, separator, time, and "Z" when the
      stamp is marked as UTC. */
  function Render(p: Pattern): string {
    DateText(p.order, p.delimiter) + [p.dateTimeSeparator] + TimeText(p.time) + (if p.zulu then "Z" else "")
  }

  /** Reads the five choices back from a rendered pattern: the first letter
      gives the order, the delimiter follows the first field, the separator
      is at position 10, a final 'Z' marks UTC and the length of what is left
      gives the precision. */
  function ReadPattern(s: string): Option<Pattern> {
    if |s| < 13 then None
    else
      var zulu := s[|s| - 1] == 'Z';
      var timeLength := |s| - 11 - (if zulu then 1 else 0);
      var order := if s[0] == 'y' then YearFirst else if s[0] == 'd' then DayFirst else MonthFirst;
      var delimiter := if order == YearFirst then s[4] else s[2];
      var time :=
        if timeLength == 2 then Hours
        else if timeLength == 5 then HoursMinutes
        else if timeLength == 8 then HoursMinutesSeconds
        else Fraction;
      Some(Pattern(order, delimiter, s[10], time, zulu))
  }

  /** Rendering loses nothing: every choice can be read back, so distinct
      choices give distinct pattern strings. */
  lemma ReadRender(p: Pattern)
    ensures ReadPattern(Render(p)) == Some(p)
  {
    var s := Render(p);
    var date := DateText(p.order, p.delimiter);
    var time := TimeText(p.time);
    assert s[..10] == date;
    assert s[10] == p.dateTimeSeparator;
    assert s[0] == date[0] && s[2] == date[2] && s[4] == date[4];
    assert p.zulu ==> s[|s| - 1] == 'Z';
    assert !p.zulu ==> s[|s| - 1] == time[|time| - 1];
  }

  lemma RenderInjective(p: Pattern, q: Pattern)
    ensures Render(p) == Render(q) <==> p == q
  {
    ReadRender(p);
    ReadRender(q);
  }

  // ---------------------------------------------------------------------
  // Inference

  /** The number of digits the scanning loop counts before it stops. */
  function LeadingDigits(s: string): (n: nat)
    ensures n <= |s|
    ensures forall i :: 0 <= i < n ==> IsDigit(s[i])
    ensures n < |s| ==> !IsDigit(s[n])
  {
    if |s| == 0 || !IsDigit(s[0]) then 0 else 1 + LeadingDigits(s[1..])
  }

  /** The delimiter: the first non-digit when it is a recognised one,
      otherwise '.'. */
  function Delimiter(first: string): (c: char)
    ensures c in Delimiters
    ensures c != '.' ==> exists i :: 0 <= i < |first| && first[i] == c
  {
    var n := LeadingDigits(first);
    if n < |first| && first[n] in Delimiters then first[n] else '.'
  }

  /** Precision by the length of the time part. */
  function Precision(timePart: string): (p: TimePrecision)
    ensures p == Hours <==> |timePart| < 3
    ensures p == HoursMinutes <==> 3 <= |timePart| < 6
    ensures p == HoursMinutesSeconds <==> 6 <= |timePart| < 10
    ensures p == Fraction <==> 10 <= |timePart|
  {
    if |timePart| < 3 then Hours
    else if |timePart| < 6 then HoursMinutes
    else if |timePart| < 10 then HoursMinutesSeconds
    else Fraction
  }

  /** The trimmed stamp split at ' ', or at 'T' when it holds no space, and
      the separator used. */
  function DateAndTimeParts(stamp: string): (seq<string>, char) {
    var bySpace := Split(stamp, ' ');
    if |bySpace| == 1 then (Split(stamp, 'T'), 'T') else (bySpace, ' ')
  }

  /** A stamp is UTC-marked when it ends in 'Z', ignoring case. */
  predicate EndsInZ(stamp: string) {
    |stamp| > 0 && (stamp[|stamp| - 1] == 'Z' || stamp[|stamp| - 1] == 'z')
  }

  /** The five choices for `text`; `tryParse(stamp, pattern)` stands for
      `DateTime.TryParseExact` with the invariant culture. It fails where
      the code throws: no time part, or a date part shorter than five
      characters. */
  function Infer(text: string, tryParse: (string, string) -> bool): (r: Result<Pattern>)
    ensures r.Success? <==>
      |DateAndTimeParts(Trim(text)).0| >= 2 && |DateAndTimeParts(Trim(text)).0[0]| >= 5
    ensures r.Success? ==> r.value.delimiter in Delimiters
    ensures r.Success? ==> r.value.dateTimeSeparator == DateAndTimeParts(Trim(text)).1
    ensures r.Success? ==> (r.value.zulu <==> EndsInZ(Trim(text)))
    ensures r.Success? ==> r.value.time == Precision(DateAndTimeParts(Trim(text)).0[1])
    ensures r.Success? ==>
      (r.value.order == YearFirst <==> LeadingDigits(DateAndTimeParts(Trim(text)).0[0][..5]) > 2)
    ensures r.Success? && r.value.order != YearFirst ==>
      (r.value.order == DayFirst <==> tryParse(Trim(text), Render(r.value.(order := DayFirst))))
  {
    var stamp := Trim(text);
    var (parts, t) := DateAndTimeParts(stamp);
    if |parts| < 2 then Failure("no time part")
    else if |parts[0]| < 5 then Failure("date part too short")
    else
      var first := parts[0][..5];
      var p := Pattern(YearFirst, Delimiter(first), t, Precision(parts[1]), EndsInZ(stamp));
      if LeadingDigits(first) > 2 then Success(p)
      else if tryParse(stamp, Render(p.(order := DayFirst))) then Success(p.(order := DayFirst))
      else Success(p.(order := MonthFirst))
  }

  /** `GetDateTimePattern`: the inferred pattern as a .NET pattern string. */
  function GetDateTimePattern(text: string, tryParse: (string, string) -> bool): (r: Result<string>)
    ensures r.Success? <==> Infer(text, tryParse).Success?
    ensures r.Success? ==> ReadPattern(r.value) == Some(Infer(text, tryParse).value)
  {
    var p :- Infer(text, tryParse);
    ReadRender(p);
    Success(Render(p))
  }

  // ---------------------------------------------------------------------
  // Properties

  /** The date/time separator is 'T' exactly when the stamp holds no space. */
  lemma SeparatorIsT(text: string, tryParse: (string, string) -> bool)
    requires Infer(text, tryParse).Success?
    ensures Infer(text, tryParse).value.dateTimeSeparator == 'T' <==> ' ' !in Trim(text)
  {
    SplitSingleton(Trim(text), ' ');
  }

  /** Without a space the stamp must contain a 'T' to have a time part. */
  lemma NeedsSeparator(text: string, tryParse: (string, string) -> bool)
    requires ' ' !in Trim(text) && 'T' !in Trim(text)
    ensures Infer(text, tryParse).Failure?
  {
    SplitSingleton(Trim(text), ' ');
    SplitSingleton(Trim(text), 'T');
  }

  /** The trial parse is consulted only for a stamp that does not start with
      a year, and the month-first order is chosen only when it fails. */
  lemma MonthFirstOnlyAfterFailedTrial(text: string, tryParse: (string, string) -> bool)
    requires Infer(text, tryParse).Success? && Infer(text, tryParse).value.order == MonthFirst
    ensures !tryParse(Trim(text), Render(Infer(text, tryParse).value.(order := DayFirst)))
  {
  }

  /** A stamp with a space, a day-first date "dd.MM.yyyy" and an "HH:mm"
      time gives the pattern "dd.MM.yyyy HH:mm" when the day-first trial
      parse accepts it. */
  lemma DayFirstMinutes(date: string, time: string, tryParse: (string, string) -> bool)
    requires |date| == 10 && |time| == 5
    requires IsDigit(date[0]) && IsDigit(date[1]) && date[2] == '.'
    requires IsDigit(time[|time| - 1])
    requires ' ' !in date && ' ' !in time
    requires tryParse(date + " " + time, "dd.MM.yyyy HH:mm")
    ensures GetDateTimePattern(date + " " + time, tryParse) == Success("dd.MM.yyyy HH:mm")
  {
    var stamp := date + " " + time;
    TrimWhereKeepsEnds(stamp, IsWhiteSpace);
    assert stamp == date + [' '] + time;
    SplitAfterPiece(date, ' ', time);
    SplitSingleton(time, ' ');
    assert Trim(stamp) == stamp;
    assert Split(stamp, ' ') == [date, time];
    assert DateAndTimeParts(stamp) == ([date, time], ' ');
    var first := date[..5];
    assert LeadingDigits(first[2..]) == 0;
    assert LeadingDigits(first) == 2;
    var p := Pattern(DayFirst, '.', ' ', HoursMinutes, false);
    assert Render(p) == "dd.MM.yyyy HH:mm";
    assert Infer(stamp, tryParse) == Success(p);
  }
}
