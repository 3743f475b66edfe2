/** `str_to_timedelta`: an `HH:MM:SS` text to a duration, in whole seconds. */
module Durations {
  import opened Results
  import opened PyText

  const SecondsPerHour: nat := 3600
  const SecondsPerMinute: nat := 60
  const SecondsPerDay: nat := 86400

  /** `timedelta.max.days`: a larger `timedelta` raises OverflowError. */
  const MaxDays: nat := 999999999

  /** Why `str_to_timedelta` raised. */
  datatype DurationError =
    | MissingField(index: nat)     // IndexError on data[index]
    | NotAnInteger(index: nat)     // ValueError from int(data[index])
    | NegativeHours                // the explicit `hours < 0` check
    | OutOfRange                   // minutes or seconds outside [0, 59]
    | TooLarge                     // OverflowError from timedelta(...)

  /** `int(fields[index])`, raising as Python does. */
  function Field(fields: seq<string>, index: nat): (r: Result<int, DurationError>)
    ensures index >= |fields| <==> r == Failure(MissingField(index))
    ensures index < |fields| ==>
      (r.Success? <==> ParseInt(fields[index]).Some?) &&
      (r.Success? ==> r.value == ParseInt(fields[index]).value)
  {
    if index >= |fields| then Failure(MissingField(index))
    else match ParseInt(fields[index])
      case None => Failure(NotAnInteger(index))
      case Some(n) => Success(n)
  }

  /** `str_to_timedelta(text)`: the colon-separated fields are read in order
      as hours, minutes and seconds; fields after the third are never looked
      at. The result is the duration in seconds. */
  function ParseDuration(text: string): (r: Result<nat, DurationError>)
    ensures r.Success? ==> r.value / SecondsPerDay <= MaxDays
  {
    ReadFields(Split(text, ':'))
  }

  /** The body of `str_to_timedelta` after `split(":")`. */
  function ReadFields(fields: seq<string>): (r: Result<nat, DurationError>)
    ensures r.Success? ==> r.value / SecondsPerDay <= MaxDays
  {
    var hours :- Field(fields, 0);
    var minutes :- Field(fields, 1);
    var seconds :- Field(fields, 2);
    Checked(hours, minutes, seconds)
  }

  /** The range checks of `str_to_timedelta` and of the `timedelta`
      constructor on already parsed fields. */
  function Checked(hours: int, minutes: int, seconds: int): (r: Result<nat, DurationError>)
    ensures r.Success? ==> r.value / SecondsPerDay <= MaxDays
  {
    if hours < 0 then Failure(NegativeHours)
    else if !(0 <= minutes <= 59) || !(0 <= seconds <= 59) then Failure(OutOfRange)
    else
      var total := SecondsPerHour * hours + SecondsPerMinute * minutes + seconds;
      if total / SecondsPerDay > MaxDays then Failure(TooLarge) else Success(total)
  }

  /** Fields in range are accepted as the number of seconds they spell. */
  lemma CheckedInRange(h: int, m: int, s: int)
    requires h >= 0 && 0 <= m <= 59 && 0 <= s <= 59
    requires (3600 * h + 60 * m + s) / 86400 <= MaxDays
    ensures Checked(h, m, s) == Success(3600 * h + 60 * m + s)
  {
  }

  /** Given three integer fields, the text is accepted exactly when the hours
      are not negative, minutes and seconds lie in [0, 59] and the total fits
      a `timedelta`; the result is then 3600·h + 60·m + s seconds. */
  lemma ParseDurationFields(text: string, h: int, m: int, s: int)
    requires |Split(text, ':')| >= 3
    requires ParseInt(Split(text, ':')[0]) == Some(h)
    requires ParseInt(Split(text, ':')[1]) == Some(m)
    requires ParseInt(Split(text, ':')[2]) == Some(s)
    ensures ParseDuration(text).Success? <==>
      h >= 0 && 0 <= m <= 59 && 0 <= s <= 59 && (3600 * h + 60 * m + s) / 86400 <= MaxDays
    ensures ParseDuration(text).Success? ==> ParseDuration(text).value == 3600 * h + 60 * m + s
  {

  }

  /** One failing field among the first three makes the whole parse fail. */
  lemma ReadFieldsFails(fields: seq<string>, i: nat)
    requires i < 3 && Field(fields, i).Failure?
    ensures ReadFields(fields).Failure?
  {

  }

  /** Fewer than three colon-separated fields, or one of the first three not
      an integer, is an error whatever else the text holds. */
  lemma ParseDurationNeedsThreeIntegers(text: string)
    requires |Split(text, ':')| < 3 ||
             exists i :: 0 <= i < 3 && i < |Split(text, ':')| && ParseInt(Split(text, ':')[i]).None?
    ensures ParseDuration(text).Failure?
  {

  }

  /** Anything after a third colon is ignored: `"01:02:03:junk"` reads as
      `"01:02:03"`. */
  lemma ParseDurationIgnoresExtraFields(text: string, extra: string)
    requires |Split(text, ':')| >= 3
    ensures ParseDuration(text + ":" + extra) == ParseDuration(text)
  {
    assert text + ":" + extra == text + [':'] + extra;
    SplitAppend(text, ':', extra);
    var long, short := Split(text + ":" + extra, ':'), Split(text, ':');
    assert long == short + Split(extra, ':');
    assert Field(long, 0) == Field(short, 0);
    assert Field(long, 1) == Field(short, 1);
    assert Field(long, 2) == Field(short, 2);
  }

  /** `"%02d:%02d:%02d"` of a duration given in seconds. */
  function FormatDuration(d: nat): string
  {
    Pad2(d / SecondsPerHour) + ":" + Pad2(d / SecondsPerMinute % SecondsPerMinute) + ":" +
    Pad2(d % SecondsPerMinute)
  }

  /** The rendering splits into its three padded fields. */
  lemma SplitFormatDuration(d: nat)
    ensures Split(FormatDuration(d), ':') ==
            [Pad2(d / SecondsPerHour), Pad2(d / SecondsPerMinute % SecondsPerMinute),
             Pad2(d % SecondsPerMinute)]
  {
    var h, m, s := d / SecondsPerHour, d / SecondsPerMinute % SecondsPerMinute, d % SecondsPerMinute;
    Pad2Digits(h);
    Pad2Digits(m);
    Pad2Digits(s);
    SplitThree(Pad2(h), Pad2(m), Pad2(s), ':');
  }

  /** The fields of the rendering pass the range checks and add back up to `d`. */
  lemma CheckedFormat(d: nat)
    requires d / SecondsPerDay <= MaxDays
    ensures Checked(d / SecondsPerHour, d / SecondsPerMinute % SecondsPerMinute,
                    d % SecondsPerMinute) == Success(d)
  {

  }

  /** Every non-negative whole-second duration within the day limit of
      `timedelta` is read back from its `HH:MM:SS` rendering: on those, the
      parser and the rendering are inverse. */
  lemma ParseFormatDuration(d: nat)
    requires d / SecondsPerDay <= MaxDays
    ensures ParseDuration(FormatDuration(d)) == Success(d)
  {
    var h, m, s := d / SecondsPerHour, d / SecondsPerMinute % SecondsPerMinute, d % SecondsPerMinute;
    SplitFormatDuration(d);
    var fields := Split(FormatDuration(d), ':');
    ParsePad2(h);
    ParsePad2(m);
    ParsePad2(s);
    assert Field(fields, 0) == Success(h);
    assert Field(fields, 1) == Success(m);
    assert Field(fields, 2) == Success(s);
    assert ReadFields(fields) == Checked(h, m, s);
    CheckedFormat(d);
  }

  /** A text of exactly three integer fields goes straight to the range checks. */
  lemma ParseThreeFields(a: string, b: string, c: string, h: int, m: int, s: int)
    requires ':' !in a && ':' !in b && ':' !in c
    requires ParseInt(a) == Some(h) && ParseInt(b) == Some(m) && ParseInt(c) == Some(s)
    ensures ParseDuration(a + ":" + b + ":" + c) == Checked(h, m, s)
  {
    assert a + ":" + b + ":" + c == a + [':'] + b + [':'] + c;
    SplitThree(a, b, c, ':');
    var fields := [a, b, c];
    assert Field(fields, 0) == Success(h);
    assert Field(fields, 1) == Success(m);
    assert Field(fields, 2) == Success(s);
  }

  /** `"02:30:15"` is two and a half hours and fifteen seconds. */
  lemma ExampleParse()
    ensures ParseDuration("02:30:15") == Success(9015)
  {
    ParseThreeFields("02", "30", "15", 2, 30, 15);
    assert "02:30:15" == "02" + ":" + "30" + ":" + "15";
    CheckedInRange(2, 30, 15);
  }

  /** ... and renders back identically. */
  lemma ExampleRender()
    ensures FormatDuration(9015) == "02:30:15"
  {
    assert 9015 / 60 / 60 == 2 && 9015 / 60 % 60 == 30 && 9015 % 60 == 15;
    assert Pad2(2) == "02" && Pad2(30) == "30" && Pad2(15) == "15";
  }

  /** Hours have no upper bound of their own: `"25:00:00"` is accepted. */
  lemma ExampleHoursPastADay()
    ensures ParseDuration("25:00:00") == Success(90000)
  {
    ParseThreeFields("25", "00", "00", 25, 0, 0);
    assert "25:00:00" == "25" + ":" + "00" + ":" + "00";
    CheckedInRange(25, 0, 0);
  }

  /** Sixty minutes in the minute field is refused. */
  lemma ExampleSixtyMinutesRefused()
    ensures ParseDuration("00:60:00") == Failure(OutOfRange)
  {
    ParseThreeFields("00", "60", "00", 0, 60, 0);
    assert "00:60:00" == "00" + ":" + "60" + ":" + "00";
  }

  /** A negative second field is refused. */
  lemma ExampleNegativeSecondsRefused()
    ensures ParseDuration("00:00:-1") == Failure(OutOfRange)
  {
    ParseThreeFields("00", "00", "-1", 0, 0, -1);
    assert "00:00:-1" == "00" + ":" + "00" + ":" + "-1";
  }

  /** Two fields are one too few: reading the seconds raises IndexError. */
  lemma ExampleTwoFieldsRefused()
    ensures ParseDuration("01:00") == Failure(MissingField(2))
  {
    SplitJoin(["01", "00"], ':');
    assert Join(["01", "00"], ':') == "01:00";
  }

  /** A zero duration, the record step of `ZeroRecordStepAccepted`. */
  lemma ExampleZero()
    ensures ParseDuration("00:00:00") == Success(0)
  {
    ParseThreeFields("00", "00", "00", 0, 0, 0);
    assert "00:00:00" == "00" + ":" + "00" + ":" + "00";
    CheckedInRange(0, 0, 0);
  }

  /** Ten minutes, the record step of the window examples. */
  lemma ExampleTenMinutes()
    ensures ParseDuration("00:10:00") == Success(600)
  {
    ParseThreeFields("00", "10", "00", 0, 10, 0);
    assert "00:10:00" == "00" + ":" + "10" + ":" + "00";
    CheckedInRange(0, 10, 0);
  }

  /** One hour, the duration of the window example with a zero record step. */
  lemma ExampleOneHour()
    ensures ParseDuration("01:00:00") == Success(3600)
  {
    ParseThreeFields("01", "00", "00", 1, 0, 0);
    assert "01:00:00" == "01" + ":" + "00" + ":" + "00";
    CheckedInRange(1, 0, 0);
  }
}
