/** `read_input_time`: the record step and the simulation time window,
    resolved from the `record_step`, `start_time`, `end_time` and
    `sim_duration` options. */
module TimeWindow {
  import opened Results
  import opened Cli
  import opened Durations

  /** An absolute instant, in whole seconds after `datetime.min`
      (0001-01-01 00:00). */
  type Instant = nat

  /** `datetime.min`, the start of a run given by its duration alone. */
  const DatetimeMin: Instant := 0

  /** `datetime.strptime(text, '%Y-%m-%d %H:%M')`; `None` where it raises
      ValueError. The calendar arithmetic of the library is not modelled. */
  type StampParser = string -> Option<Instant>

  /** The three accepted ways of giving the time window. */
  datatype Shape = DurationOnly | StartAndDuration | StartAndEnd

  /** Which of the three time options a shape is made of, as
      (start_time, end_time, sim_duration). */
  function Supplies(shape: Shape): (bool, bool, bool)
  {
    match shape
    case DurationOnly => (false, false, true)
    case StartAndDuration => (true, false, true)
    case StartAndEnd => (true, true, false)
  }

  /** Which of the three time options the user gave, in the same order. */
  function Presence(opts: Options): (bool, bool, bool)
  {
    (Given(opts, "start_time"), Given(opts, "end_time"), Given(opts, "sim_duration"))
  }

  /** The flags `b_dur`, `b_start_dur` and `b_start_end`, folded into the
      shape that holds, if any. */
  function ShapeOf(opts: Options): (r: Option<Shape>)
    // a recognised shape is made of exactly the options the user gave
    ensures r.Some? ==> Presence(opts) == Supplies(r.value)
    // and every other combination matches no shape at all
    ensures r.None? ==> forall shape :: Presence(opts) != Supplies(shape)
  {
    var d, s, e := Given(opts, "sim_duration"), Given(opts, "start_time"), Given(opts, "end_time");
    if d && !s && !e then Some(DurationOnly)
    else if s && d && !e then Some(StartAndDuration)
    else if s && e && !d then Some(StartAndEnd)
    else None
  }

  /** A shape is recognised exactly when the given options are the ones it is
      made of: the three flags exclude each other, and every other
      combination (none, all three, end without start, ...) is refused. */
  lemma ShapeOfPresence(opts: Options, shape: Shape)
    ensures ShapeOf(opts) == Some(shape) <==> Presence(opts) == Supplies(shape)
  {
  }

  /** The resolved `input_times` dictionary. `end` is `None` unless
      `end_time` was given; `duration` may be negative. */
  datatype InputTimes = InputTimes(start: Instant, end: Option<Instant>, duration: int, recordStep: nat)

  /** An absolute-time option: `None` when not given, its parse otherwise. */
  function ReadStamp(opts: Options, key: string, parse: StampParser): (r: Result<Option<Instant>, Fatal>)
    ensures !Given(opts, key) ==> r == Success(None)
    ensures Given(opts, key) ==>
      (r.Success? <==> parse(Get(opts, key)).Some?) &&
      (r.Success? ==> r.value == parse(Get(opts, key))) &&
      (r.Failure? ==> r.error == BadTimestamp(key))
  {
    if !Given(opts, key) then Success(None)
    else match parse(Get(opts, key))
      case None => Failure(BadTimestamp(key))
      case Some(t) => Success(Some(t))
  }

  /** A relative-time option through `str_to_timedelta`, any error fatal. */
  function ReadDuration(opts: Options, key: string): (r: Result<nat, Fatal>)
    ensures r.Success? <==> ParseDuration(Get(opts, key)).Success?
    ensures r.Success? ==> r.value == ParseDuration(Get(opts, key)).value
    ensures r.Failure? ==> r.error == BadDuration(key)
  {
    match ParseDuration(Get(opts, key))
    case Failure(_) => Failure(BadDuration(key))
    case Success(d) => Success(d)
  }

  /** The `sim_duration` branch at the end of `read_input_time`: the parsed
      option when given, otherwise `end - start` with no sign check. */
  function ResolveDuration(opts: Options, start: Instant, end: Option<Instant>): (r: Result<int, Fatal>)
    requires Given(opts, "sim_duration") || end.Some?
    ensures Given(opts, "sim_duration") ==>
      (r.Success? <==> ParseDuration(Get(opts, "sim_duration")).Success?) &&
      (r.Success? ==> r.value == ParseDuration(Get(opts, "sim_duration")).value) &&
      (r.Failure? ==> r.error == BadDuration("sim_duration"))
    ensures !Given(opts, "sim_duration") ==> r == Success(end.value - start)
  {
    if Given(opts, "sim_duration") then
      var duration :- ReadDuration(opts, "sim_duration");
      Success(duration)
    else
      Success(end.value - start)
  }

  /** The error a failing window reports: the first of `end_time`,
      `start_time` and `sim_duration` whose text does not parse. */
  function WindowError(opts: Options, parse: StampParser): Fatal
  {
    if Given(opts, "end_time") && parse(Get(opts, "end_time")).None? then BadTimestamp("end_time")
    else if Given(opts, "start_time") && parse(Get(opts, "start_time")).None? then BadTimestamp("start_time")
    else BadDuration("sim_duration")
  }

  /** The instants and the duration, once the combination is known to be
      one of the three shapes: `end_time`, then `start_time` (defaulting to
      `datetime.min`), then the duration. */
  function ResolveWindow(opts: Options, parse: StampParser, recordStep: nat): (r: Result<InputTimes, Fatal>)
    requires ShapeOf(opts).Some?
    ensures r.Success? ==> r.value.recordStep == recordStep
    ensures r.Success? ==> (r.value.end.Some? <==> Given(opts, "end_time"))
    ensures r.Success? && r.value.end.Some? ==> Some(r.value.end.value) == parse(Get(opts, "end_time"))
    ensures r.Success? ==>
      if Given(opts, "start_time") then Some(r.value.start) == parse(Get(opts, "start_time"))
      else r.value.start == DatetimeMin
    ensures r.Success? ==>
      ResolveDuration(opts, r.value.start, r.value.end) == Success(r.value.duration)
    ensures r.Failure? ==> r.error == WindowError(opts, parse)
  {
    var end :- ReadStamp(opts, "end_time", parse);
    var given :- ReadStamp(opts, "start_time", parse);
    var start := if given.Some? then given.value else DatetimeMin;
    var duration :- ResolveDuration(opts, start, end);
    Success(InputTimes(start, end, duration, recordStep))
  }

  /** `read_input_time`. The checks run in the source's order: the record
      step, the combination of time options, then `end_time`, `start_time`
      and `sim_duration`; the first failure stops the program. */
  function ReadInputTime(opts: Options, parse: StampParser): (r: Result<InputTimes, Fatal>)
    // the record step is checked before anything else
    ensures ParseDuration(Get(opts, "record_step")).Failure? ==> r == Failure(BadDuration("record_step"))
    // a wrong combination is refused before any instant is parsed
    ensures ParseDuration(Get(opts, "record_step")).Success? && ShapeOf(opts).None? ==>
      r == Failure(BadCombination)
    ensures r.Success? ==> ShapeOf(opts).Some?
    ensures r.Success? ==> r.value.recordStep == ParseDuration(Get(opts, "record_step")).value
    // past those two checks, the first option that does not parse is reported
    ensures ParseDuration(Get(opts, "record_step")).Success? && ShapeOf(opts).Some? && r.Failure? ==>
      r.error == WindowError(opts, parse)
  {
    var recordStep :- ReadDuration(opts, "record_step");
    if ShapeOf(opts).None? then Failure(BadCombination)
    else ResolveWindow(opts, parse, recordStep)
  }

  /** Everything the front end needs holds: the text of every given time
      option parses and the combination is one of the three shapes. */
  ghost predicate TimesAcceptable(opts: Options, parse: StampParser)
  {
    && ParseDuration(Get(opts, "record_step")).Success?
    && ShapeOf(opts).Some?
    && (Given(opts, "end_time") ==> parse(Get(opts, "end_time")).Some?)
    && (Given(opts, "start_time") ==> parse(Get(opts, "start_time")).Some?)
    && (Given(opts, "sim_duration") ==> ParseDuration(Get(opts, "sim_duration")).Success?)
  }

  /** Past the combination check, the window resolves exactly when every
      given option parses. */
  lemma ResolveWindowAccepts(opts: Options, parse: StampParser, recordStep: nat)
    requires ShapeOf(opts).Some?
    ensures ResolveWindow(opts, parse, recordStep).Success? <==>
      && (Given(opts, "end_time") ==> parse(Get(opts, "end_time")).Some?)
      && (Given(opts, "start_time") ==> parse(Get(opts, "start_time")).Some?)
      && (Given(opts, "sim_duration") ==> ParseDuration(Get(opts, "sim_duration")).Success?)
  {

  }

  /** `read_input_time` returns exactly when every check passes. */
  lemma ReadInputTimeAccepts(opts: Options, parse: StampParser)
    ensures ReadInputTime(opts, parse).Success? <==> TimesAcceptable(opts, parse)
  {

  }

  /** The window a successful call resolves is consistent: with an end, the
      duration is the distance from start to end (with no sign check);
      without one, the duration is the parsed `sim_duration`, not negative,
      and the start is the given one or `datetime.min`. */
  lemma ReadInputTimeWindow(opts: Options, parse: StampParser)
    requires ReadInputTime(opts, parse).Success?
    ensures var w := ReadInputTime(opts, parse).value;
      && (w.end.Some? ==> w.start + w.duration == w.end.value)
      && (w.end.None? ==> w.duration >= 0 && Given(opts, "sim_duration"))
      && (ShapeOf(opts) == Some(DurationOnly) ==> w.start == DatetimeMin && w.end.None?)
  {
  }

  /** A run given by start and end lasts from one to the other, whatever
      their order. */
  lemma StartAndEndWindow(opts: Options, parse: StampParser, step: nat, start: Instant, end: Instant)
    requires ShapeOf(opts) == Some(StartAndEnd)
    requires ParseDuration(Get(opts, "record_step")) == Success(step)
    requires parse(Get(opts, "start_time")) == Some(start) && parse(Get(opts, "end_time")) == Some(end)
    ensures ReadInputTime(opts, parse) == Success(InputTimes(start, Some(end), end - start, step))
  {

  }

  /** A run given by start and duration has no end. */
  lemma StartAndDurationWindow(opts: Options, parse: StampParser, step: nat, start: Instant, duration: nat)
    requires ShapeOf(opts) == Some(StartAndDuration)
    requires ParseDuration(Get(opts, "record_step")) == Success(step)
    requires parse(Get(opts, "start_time")) == Some(start)
    requires ParseDuration(Get(opts, "sim_duration")) == Success(duration)
    ensures ReadInputTime(opts, parse) == Success(InputTimes(start, None, duration, step))
  {

  }

  /** An end before the start is accepted and gives a negative duration. */
  lemma EndBeforeStartAccepted(opts: Options, parse: StampParser)
    requires Get(opts, "record_step") == "00:10:00" && Get(opts, "sim_duration") == ""
    requires Get(opts, "start_time") == "2020-01-01 02:00" && Get(opts, "end_time") == "2020-01-01 00:00"
    requires parse("2020-01-01 02:00") == Some(7200) && parse("2020-01-01 00:00") == Some(0)
    ensures ReadInputTime(opts, parse) == Success(InputTimes(7200, Some(0), -7200, 600))
  {
    ExampleTenMinutes();
    assert ShapeOf(opts) == Some(StartAndEnd);
    StartAndEndWindow(opts, parse, 600, 7200, 0);
  }

  /** A run given by its duration alone starts at `datetime.min` and has no
      end. */
  lemma DurationOnlyWindow(opts: Options, parse: StampParser, step: nat, duration: nat)
    requires ShapeOf(opts) == Some(DurationOnly)
    requires ParseDuration(Get(opts, "record_step")) == Success(step)
    requires ParseDuration(Get(opts, "sim_duration")) == Success(duration)
    ensures ReadInputTime(opts, parse) == Success(InputTimes(DatetimeMin, None, duration, step))
  {

  }

  /** A zero record step is accepted. */
  lemma ZeroRecordStepAccepted(opts: Options, parse: StampParser)
    requires Get(opts, "record_step") == "00:00:00" && Get(opts, "sim_duration") == "01:00:00"
    requires Get(opts, "start_time") == "" && Get(opts, "end_time") == ""
    ensures ReadInputTime(opts, parse) == Success(InputTimes(DatetimeMin, None, 3600, 0))
  {
    ExampleZero();
    ExampleOneHour();
    DurationOnlyWindow(opts, parse, 0, 3600);
  }

  /** All three time options together are refused as over-specified. */
  lemma OverSpecifiedRefused(opts: Options, parse: StampParser)
    requires Get(opts, "record_step") == "00:10:00"
    requires Given(opts, "start_time") && Given(opts, "end_time") && Given(opts, "sim_duration")
    ensures ReadInputTime(opts, parse) == Failure(BadCombination)
  {
    ExampleTenMinutes();
  }
}
