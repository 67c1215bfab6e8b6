/** `Time`: a time of day as hour, minute and second, kept either on the
    24-hour clock or on the 12-hour clock with an AM/PM flag. */
module Times {
  import opened Wrappers
  import opened Text
  import TimeSpans

  datatype TimeType = Use24Hours | UseAmPm

  datatype Time = Time(Hour: nat, Minute: nat, Second: nat, IsAm: bool, TimeType: TimeType)

  /** What the constructor accepts: an hour 0..23, minute and second 0..59. */
  predicate InRange(hour: int, minute: int, second: int) {
    0 <= hour <= 23 && 0 <= minute <= 59 && 0 <= second <= 59
  }

  /** The constructor as written. Hours above 12 on the 12-hour clock are
      folded back by 12, keeping the caller's flag; in every other case the
      flag is recomputed from the hour, on the 12-hour clock too. The private
      byte constructor that parsing calls and the public int one behave
      alike here. */
  function NewAsWritten(hour: int, minute: int, second: int, isAm: bool, timeType: TimeType): (r: Result<Time>)
    ensures r.Success? <==> InRange(hour, minute, second)
    ensures r.Success? && !(timeType == UseAmPm && hour > 12) ==> r.value.IsAm == (hour < 12)
  {
    if !(0 <= hour <= 23) then Failure("illegal hour value")
    else if !(0 <= minute <= 59) then Failure("illegal minute value")
    else if !(0 <= second <= 59) then Failure("illegal second value")
    else if timeType == UseAmPm && hour > 12 then Success(Time(hour - 12, minute, second, isAm, timeType))
    else Success(Time(hour, minute, second, hour < 12, timeType))
  }

  /** The constructor as its documentation describes it: the flag is
      computed from the hour only on the 24-hour clock; on the 12-hour clock
      the caller's flag is kept. */
  function New(hour: int, minute: int, second: int, isAm: bool, timeType: TimeType): (r: Result<Time>)
    ensures r.Success? <==> InRange(hour, minute, second)
    ensures r.Success? ==> r.value.Minute == minute && r.value.Second == second && r.value.TimeType == timeType
    ensures r.Success? && timeType == UseAmPm ==>
      r.value.IsAm == isAm && r.value.Hour == (if hour > 12 then hour - 12 else hour)
    ensures r.Success? && timeType == Use24Hours ==> r.value.IsAm == (hour < 12) && r.value.Hour == hour
  {
    if !(0 <= hour <= 23) then Failure("illegal hour value")
    else if !(0 <= minute <= 59) then Failure("illegal minute value")
    else if !(0 <= second <= 59) then Failure("illegal second value")
    else if timeType == UseAmPm && hour > 12 then Success(Time(hour - 12, minute, second, isAm, timeType))
    else if timeType == UseAmPm then Success(Time(hour, minute, second, isAm, timeType))
    else Success(Time(hour, minute, second, hour < 12, timeType))
  }

  /** The two constructors differ exactly on the 12-hour clock with an hour
      of at most 12, where the written one ignores the caller's flag. */
  lemma NewAgreement(hour: int, minute: int, second: int, isAm: bool, timeType: TimeType)
    ensures NewAsWritten(hour, minute, second, isAm, timeType) == New(hour, minute, second, isAm, timeType)
        <==> !(InRange(hour, minute, second) && timeType == UseAmPm && hour <= 12 && isAm != (hour < 12))
  {
  }

  // ---------------------------------------------------------------------
  // Parsing

  /** The fields `ParseAsTime` reads before calling the constructor. */
  datatype Fields = Fields(hour: int, minute: int, second: int, isAm: bool, timeType: TimeType)

  /** Hour, minute and second read from the clock part. */
  datatype Clock = Clock(hour: int, minute: int, second: int)

  /** The clock part is split at ':' into hour, minute and second, each
      read as a byte; absent ones are 0 and hour 24 is 0. */
  function ReadClock(word: string): (r: Result<Clock>)
    ensures r.Success? ==> 0 <= r.value.hour <= 255 && r.value.hour != 24
    ensures r.Success? ==> 0 <= r.value.minute <= 255 && 0 <= r.value.second <= 255
  {
    var hms := Split(word, ':');
    var hour :- ParseByte(hms[0]);
    var minute :- if |hms| > 1 then ParseByte(hms[1]) else Success(0);
    var second :- if |hms| > 2 then ParseByte(hms[2]) else Success(0);
    Success(Clock(if hour == 24 then 0 else hour, minute, second))
  }

  /** The reading half of `ParseAsTime`: surrounding ' ', 's' and 'u' are
      trimmed and the text before the first space is the clock part;
      anything after it selects the 12-hour clock and is AM iff it starts
      with 'A'. */
  function ReadFields(text: string): (r: Result<Fields>)
    ensures r.Success? ==> 0 <= r.value.hour <= 255 && r.value.hour != 24
    ensures r.Success? ==> 0 <= r.value.minute <= 255 && 0 <= r.value.second <= 255
  {
    var words := Split(TrimChars(text, {' ', 's', 'u'}), ' ');
    var c :- ReadClock(words[0]);
    if |words| > 1 then Success(Fields(c.hour, c.minute, c.second, StartsWith(words[1], "A"), UseAmPm))
    else Success(Fields(c.hour, c.minute, c.second, c.hour < 12, Use24Hours))
  }

  /** `ParseAsTime` as written. */
  function ParseAsTimeAsWritten(text: string): Result<Time> {
    var f :- ReadFields(text);
    NewAsWritten(f.hour, f.minute, f.second, f.isAm, f.timeType)
  }

  /** `ParseAsTime` with the documented constructor. */
  function ParseAsTime(text: string): Result<Time> {
    var f :- ReadFields(text);
    New(f.hour, f.minute, f.second, f.isAm, f.timeType)
  }

  // ---------------------------------------------------------------------
  // Formatting, equality and order

  /** Two-digit rendering with a leading zero below ten. */
  function GetDigitString(d: nat): (s: string)
    ensures AllDigits(s)
    ensures d < 100 ==> |s| == 2
  {
    if d < 10 then "0" + NatToString(d)
    else
      assert d < 100 ==> |NatToString(d / 10)| == 1;
      NatToString(d)
  }

  /** "AM" or "PM" on the 12-hour clock, nothing on the 24-hour clock. */
  function AmPmValue(t: Time): string {
    if t.TimeType == UseAmPm then (if t.IsAm then "AM" else "PM") else ""
  }

  /** The hour on the 24-hour clock: 12 is added for PM on the 12-hour clock. */
  function SortableHour(t: Time): nat {
    if t.TimeType == UseAmPm && !t.IsAm then t.Hour + 12 else t.Hour
  }

  /** The "S" rendering (long sortable pattern): sortable hour, minute and
      second, two digits each. */
  function LongSortable(t: Time, sep: string): string {
    GetDigitString(SortableHour(t)) + sep + GetDigitString(t.Minute) + sep + GetDigitString(t.Second)
  }

  /** `ToString(format)` with the culture's time separator `sep`: "S" and
      "s" print the sortable hour, "t" and every other format print the
      stored hour followed by the AM/PM designator. */
  function ToString(t: Time, format: string, sep: string): string {
    if format == "t" then
      GetDigitString(t.Hour) + sep + GetDigitString(t.Minute) + " " + AmPmValue(t)
    else if format == "s" then
      GetDigitString(SortableHour(t)) + sep + GetDigitString(t.Minute)
    else if format == "S" then
      LongSortable(t, sep)
    else
      GetDigitString(t.Hour) + sep + GetDigitString(t.Minute) + sep + GetDigitString(t.Second) + " " + AmPmValue(t)
  }

  /** A value the constructor can produce. */
  predicate Valid(t: Time) {
    t.Hour <= 23 && t.Minute <= 59 && t.Second <= 59
  }

  /** `Equals`: the "S" renderings agree. */
  predicate Equal(a: Time, b: Time, sep: string) {
    ToString(a, "S", sep) == ToString(b, "S", sep)
  }

  lemma LongSortableIsS(t: Time, sep: string)
    ensures ToString(t, "S", sep) == LongSortable(t, sep)
  {
  }

  /** Equality compares the time on the 24-hour clock and ignores how it is
      kept: 2 PM on the 12-hour clock equals 14:00. */
  lemma EqualMeaning(a: Time, b: Time, sep: string)
    requires Valid(a) && Valid(b)
    ensures Equal(a, b, sep) <==>
      SortableHour(a) == SortableHour(b) && a.Minute == b.Minute && a.Second == b.Second
  {
    LongSortableIsS(a, sep);
    LongSortableIsS(b, sep);
    if Equal(a, b, sep) {
      var sa := LongSortable(a, sep);
      var sb := LongSortable(b, sep);
      assert sa[..2] == GetDigitString(SortableHour(a));
      assert sb[..2] == GetDigitString(SortableHour(b));
      var n := 2 + |sep|;
      assert sa[n..n + 2] == GetDigitString(a.Minute);
      assert sb[n..n + 2] == GetDigitString(b.Minute);
      assert sa[n + 2 + |sep|..] == GetDigitString(a.Second);
      assert sb[n + 2 + |sep|..] == GetDigitString(b.Second);
      GetDigitStringInjective(SortableHour(a), SortableHour(b));
      GetDigitStringInjective(a.Minute, b.Minute);
      GetDigitStringInjective(a.Second, b.Second);
    }
  }

  /** The rendering reads back as the number it renders. */
  lemma DigitsValueOfGetDigitString(d: nat)
    ensures DigitsValue(GetDigitString(d)) == d
  {
    DigitsValueOfNatToString(d);
    if d < 10 {
      DigitsValueLeadingZero(NatToString(d));
    }
  }

  lemma GetDigitStringInjective(a: nat, b: nat)
    ensures GetDigitString(a) == GetDigitString(b) <==> a == b
  {
    DigitsValueOfGetDigitString(a);
    DigitsValueOfGetDigitString(b);
  }

  /** `ToTimeSpan`: the stored hour, minute and second as a span. */
  function ToTimeSpan(t: Time): TimeSpans.TimeSpan {
    TimeSpans.FromParts(0, t.Hour, t.Minute, t.Second, 0)
  }

  /** `<`: compares the spans of the stored fields. */
  predicate Less(a: Time, b: Time) {
    ToTimeSpan(a) < ToTimeSpan(b)
  }

  /** The order is lexicographic on the stored hour, minute and second, and
      so ignores the AM/PM flag: 2 PM on the 12-hour clock is earlier than
      03:00 on the 24-hour clock although it equals 14:00. */
  lemma LessMeaning(a: Time, b: Time)
    requires Valid(a) && Valid(b)
    ensures Less(a, b) <==>
      || a.Hour < b.Hour
      || (a.Hour == b.Hour && a.Minute < b.Minute)
      || (a.Hour == b.Hour && a.Minute == b.Minute && a.Second < b.Second)
  {
  }

  /** `>`: compares the spans of the stored fields. */
  predicate Greater(a: Time, b: Time) {
    ToTimeSpan(a) > ToTimeSpan(b)
  }

  /** `>=`: compares the spans of the stored fields. */
  predicate GreaterEq(a: Time, b: Time) {
    ToTimeSpan(a) >= ToTimeSpan(b)
  }

  /** `<=`: compares the spans of the stored fields. */
  predicate LessEq(a: Time, b: Time) {
    ToTimeSpan(a) <= ToTimeSpan(b)
  }

  /** The four operators are one order: `>` is `<` swapped, `>=` and `<=`
      are the negations of `<` and `>`; two valid times are mutually `<=`
      exactly when their stored hour, minute and second agree, whatever
      their AM/PM flags and clocks. */
  lemma OrderOperators(a: Time, b: Time)
    requires Valid(a) && Valid(b)
    ensures Greater(a, b) <==> Less(b, a)
    ensures GreaterEq(a, b) <==> !Less(a, b)
    ensures LessEq(a, b) <==> !Less(b, a)
    ensures Less(a, b) || LessEq(b, a)
    ensures LessEq(a, b) && LessEq(b, a) <==>
      a.Hour == b.Hour && a.Minute == b.Minute && a.Second == b.Second
  {
    LessMeaning(a, b);
    LessMeaning(b, a);
  }

  // ---------------------------------------------------------------------
  // Properties of parsing

  /** Printing a 24-hour time in the sortable long form and parsing it back
      gives the same time. */
  lemma ParseSortableRoundTrip(t: Time)
    requires Valid(t) && t.TimeType == Use24Hours && t.IsAm == (t.Hour < 12)
    ensures ParseAsTime(ToString(t, "S", ":")) == Success(t)
    ensures ParseAsTimeAsWritten(ToString(t, "S", ":")) == Success(t)
  {
    LongSortableIsS(t, ":");
    SortableFields(t);
    ParseOfFields(LongSortable(t, ":"), Fields(t.Hour, t.Minute, t.Second, t.Hour < 12, Use24Hours));
  }

  lemma SortableFields(t: Time)
    requires Valid(t) && t.TimeType == Use24Hours
    ensures ReadFields(LongSortable(t, ":")) == Success(Fields(t.Hour, t.Minute, t.Second, t.Hour < 12, Use24Hours))
  {
    var text := LongSortable(t, ":");
    SortableChars(t);
    NoTrimmedChars(text);
    SplitSingleton(text, ' ');
    SortableClock(t);
    ReadFieldsOfOneWord(text);
  }

  /** The sortable rendering holds only digits and ':' and starts and ends
      with a digit. */
  lemma SortableChars(t: Time)
    requires Valid(t) && t.TimeType == Use24Hours
    ensures var text := LongSortable(t, ":");
      && |text| == 8 && IsDigit(text[0]) && IsDigit(text[7])
      && forall i :: 0 <= i < |text| ==> IsDigit(text[i]) || text[i] == ':'
  {
    var h := GetDigitString(t.Hour);
    var m := GetDigitString(t.Minute);
    var s := GetDigitString(t.Second);
    var text := LongSortable(t, ":");
    assert text == h + ":" + m + ":" + s;
    assert text[0] == h[0] && text[7] == s[1];
  }

  /** A text that trims to itself and holds no space is all clock part, on
      the 24-hour clock. */
  lemma ReadFieldsOfOneWord(text: string)
    requires TrimChars(text, {' ', 's', 'u'}) == text
    requires Split(text, ' ') == [text]
    requires ReadClock(text).Success?
    ensures ReadFields(text) == Success(Fields(ReadClock(text).value.hour, ReadClock(text).value.minute,
      ReadClock(text).value.second, ReadClock(text).value.hour < 12, Use24Hours))
  {
  }

  lemma SortableClock(t: Time)
    requires Valid(t) && t.TimeType == Use24Hours
    ensures ReadClock(LongSortable(t, ":")) == Success(Clock(t.Hour, t.Minute, t.Second))
  {
    var h := GetDigitString(t.Hour);
    var m := GetDigitString(t.Minute);
    var s := GetDigitString(t.Second);
    ClockPieces(h, m, s);
    assert LongSortable(t, ":") == h + ":" + m + ":" + s;
    ReadDigitString(t.Hour);
    ReadDigitString(t.Minute);
    ReadDigitString(t.Second);
    ReadClockOfThree(h + ":" + m + ":" + s, h, m, s);
  }

  /** Three digit strings joined by ':' split back into the three. */
  lemma ClockPieces(h: string, m: string, s: string)
    requires AllDigits(h) && AllDigits(m) && AllDigits(s)
    ensures Split(h + ":" + m + ":" + s, ':') == [h, m, s]
  {
    assert ':' !in h && ':' !in m && ':' !in s;
    JoinThree(h, m, s, ':');
    SplitJoin([h, m, s], ':');
  }

  /** A clock part with three fields reads as the three bytes. */
  lemma ReadClockOfThree(word: string, h: string, m: string, s: string)
    requires Split(word, ':') == [h, m, s]
    requires ParseByte(h).Success? && ParseByte(m).Success? && ParseByte(s).Success?
    ensures ReadClock(word) == Success(Clock(
      if ParseByte(h).value == 24 then 0 else ParseByte(h).value, ParseByte(m).value, ParseByte(s).value))
  {
  }

  lemma JoinThree(a: string, b: string, c: string, sep: char)
    ensures Join([a, b, c], sep) == a + [sep] + b + [sep] + c
  {
    assert [a, b, c][1..] == [b, c];
    assert [b, c][1..] == [c];
    assert Join([c], sep) == c;
    assert Join([b, c], sep) == b + [sep] + c;
    assert Join([a, b, c], sep) == a + [sep] + (b + [sep] + c);
  }

  /** A text that starts with a digit and ends with a digit or 'M' is not
      trimmed. */
  lemma NoTrimmedChars(text: string)
    requires |text| > 0 && IsDigit(text[0]) && (IsDigit(text[|text| - 1]) || text[|text| - 1] == 'M')
    ensures TrimChars(text, {' ', 's', 'u'}) == text
  {
    TrimCharsKeepsEnds(text, {' ', 's', 'u'});
  }

  lemma ReadDigitString(d: nat)
    requires d <= 255
    ensures ParseByte(GetDigitString(d)) == Success(d)
  {
    DigitsValueOfGetDigitString(d);
    ParseIntegerOfDigits(GetDigitString(d));
  }

  /** The 12-hour text of a morning hour with the PM designator. */
  function PmText(hour: nat, minute: nat, second: nat): string {
    GetDigitString(hour) + ":" + GetDigitString(minute) + ":" + GetDigitString(second) + " PM"
  }

  /** The PM text reads as the clock fields on the 12-hour clock, not AM. */
  lemma PmFields(hour: nat, minute: nat, second: nat)
    requires 1 <= hour <= 11 && minute <= 59 && second <= 59
    ensures ReadFields(PmText(hour, minute, second)) == Success(Fields(hour, minute, second, false, UseAmPm))
  {
    var h := GetDigitString(hour);
    var m := GetDigitString(minute);
    var s := GetDigitString(second);
    ClockOfDigits(hour, minute, second);
    ClockShape(h, m, s);
    PmFieldsOf(h + ":" + m + ":" + s, Clock(hour, minute, second));
  }

  /** Three digit strings joined by ':' start with a digit and hold no
      space. */
  lemma ClockShape(h: string, m: string, s: string)
    requires AllDigits(h) && AllDigits(m) && AllDigits(s) && |h| > 0
    ensures var clock := h + ":" + m + ":" + s;
      IsDigit(clock[0]) && ' ' !in clock
  {
    var clock := h + ":" + m + ":" + s;
    assert clock[0] == h[0];
    forall i | 0 <= i < |clock|
      ensures clock[i] != ' '
    {
      if i < |h| {
        assert clock[i] == h[i];
      } else if i == |h| || i == |h| + 1 + |m| {
      } else if i < |h| + 1 + |m| {
        assert clock[i] == m[i - |h| - 1];
      } else {
        assert clock[i] == s[i - |h| - 2 - |m|];
      }
    }
  }

  /** A clock part followed by " PM" reads as its clock on the 12-hour
      clock, not AM. */
  lemma PmFieldsOf(clock: string, c: Clock)
    requires |clock| > 0 && IsDigit(clock[0]) && ' ' !in clock
    requires ReadClock(clock) == Success(c)
    ensures ReadFields(clock + " PM") == Success(Fields(c.hour, c.minute, c.second, false, UseAmPm))
  {
    PmTextShape(clock);
    ReadFieldsOfTwoWords(clock + " PM", clock, "PM");
  }

  /** The PM text is not trimmed, splits at its one space, and its
      designator does not start with 'A'. */
  lemma PmTextShape(clock: string)
    requires |clock| > 0 && IsDigit(clock[0]) && ' ' !in clock
    ensures TrimChars(clock + " PM", {' ', 's', 'u'}) == clock + " PM"
    ensures Split(clock + " PM", ' ') == [clock, "PM"]
    ensures !StartsWith("PM", "A")
  {
    var text := clock + " PM";
    assert text[0] == clock[0] && text[|text| - 1] == 'M';
    NoTrimmedChars(text);
    PmWords(clock);
    assert "PM"[..1][0] == 'P';
  }

  /** The clock part of the 12-hour text reads as its three fields. */
  lemma ClockOfDigits(hour: nat, minute: nat, second: nat)
    requires 1 <= hour <= 11 && minute <= 59 && second <= 59
    ensures ReadClock(GetDigitString(hour) + ":" + GetDigitString(minute) + ":" + GetDigitString(second))
         == Success(Clock(hour, minute, second))
  {
    var h := GetDigitString(hour);
    var m := GetDigitString(minute);
    var s := GetDigitString(second);
    ClockPieces(h, m, s);
    ReadDigitString(hour);
    ReadDigitString(minute);
    ReadDigitString(second);
    ReadClockOfThree(h + ":" + m + ":" + s, h, m, s);
  }

  /** A clock part without spaces and the designator split at the space. */
  lemma PmWords(clock: string)
    requires ' ' !in clock
    ensures Split(clock + " PM", ' ') == [clock, "PM"]
  {
    assert clock + " PM" == clock + [' '] + "PM";
    SplitAfterPiece(clock, ' ', "PM");
    SplitSingleton("PM", ' ');
  }

  /** A text that trims to itself and holds one space reads its clock part
      before the space and its designator after it. */
  lemma ReadFieldsOfTwoWords(text: string, clock: string, designator: string)
    requires TrimChars(text, {' ', 's', 'u'}) == text
    requires Split(text, ' ') == [clock, designator]
    requires ReadClock(clock).Success?
    ensures ReadFields(text) == Success(Fields(ReadClock(clock).value.hour, ReadClock(clock).value.minute,
      ReadClock(clock).value.second, StartsWith(designator, "A"), UseAmPm))
  {
  }

  /** As written, the PM designator is lost for the hours 1 to 11: "02:00:00
      PM" reads as two in the morning. */
  lemma PmIgnoredAsWritten(hour: nat, minute: nat, second: nat)
    requires 1 <= hour <= 11 && minute <= 59 && second <= 59
    ensures ParseAsTimeAsWritten(PmText(hour, minute, second)).Success?
    ensures ParseAsTimeAsWritten(PmText(hour, minute, second)).value.IsAm
    ensures SortableHour(ParseAsTimeAsWritten(PmText(hour, minute, second)).value) == hour
  {
    PmFields(hour, minute, second);
    ParseOfFields(PmText(hour, minute, second), Fields(hour, minute, second, false, UseAmPm));
  }

  /** With the documented constructor the PM designator moves the hour into
      the afternoon: "02:00:00 PM" reads as 14:00:00. */
  lemma PmKept(hour: nat, minute: nat, second: nat)
    requires 1 <= hour <= 11 && minute <= 59 && second <= 59
    ensures ParseAsTime(PmText(hour, minute, second)).Success?
    ensures !ParseAsTime(PmText(hour, minute, second)).value.IsAm
    ensures SortableHour(ParseAsTime(PmText(hour, minute, second)).value) == hour + 12
  {
    PmFields(hour, minute, second);
    ParseOfFields(PmText(hour, minute, second), Fields(hour, minute, second, false, UseAmPm));
  }

  /** Parsing is reading the fields and calling the constructor. */
  lemma ParseOfFields(text: string, f: Fields)
    requires ReadFields(text) == Success(f)
    ensures ParseAsTimeAsWritten(text) == NewAsWritten(f.hour, f.minute, f.second, f.isAm, f.timeType)
    ensures ParseAsTime(text) == New(f.hour, f.minute, f.second, f.isAm, f.timeType)
  {
  }
}
