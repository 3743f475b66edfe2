# itzi `t.sim.flood`: option validation

`t.sim.flood` is the GRASS GIS front end of the itzi flood model. Before it
hands anything to the simulation engine, it turns the raw option strings of
the command line into validated values:

- `str_to_timedelta` reads an `HH:MM:SS` duration.
- `read_input_time` reads the record step. It then decides which of the
  three accepted time-window shapes the user gave: duration alone, start and
  duration, or start and end. Last, it resolves the start, the end and the
  duration.
- `read_sim_param` overrides the six numerical defaults (`hmin`, `cfl`,
  `theta`, `vrouting`, `dtmax`, `slmax`) with any non-empty option.
- `read_maps_names` copies the input and output map names into their
  dictionaries. It refuses to overwrite an existing output map unless
  overwriting is on, and it runs the Green-Ampt coherence check.

This project models that layer in Dafny. Each step is a pure function
returning a `Result`. A fatal message is a `Failure`, and the `Fatal` datatype
says which check fired.

Modelling choices:

- Options are a `map<string, string>`. A missing option reads as the empty
  string, and the empty string is Python-false: "not given". The GRASS parser
  always supplies every declared option, so a missing key never raises.
- `dict.iteritems()` visits the options in an unspecified order. That order is
  the `order` parameter. `Enumerates(opts, order)` requires it to list every
  option key, possibly repeated, and nothing else.
- Python 2's `int()` is modelled concretely (`PyText.ParseInt`): blanks, an
  optional sign, blanks again, at least one decimal digit, then trailing
  blanks. Python 2 accepts blanks after the sign.
- `str.split(':')` is modelled concretely (`PyText.Split`).
- A `timedelta` is a number of seconds. The `timedelta` constructor raises
  OverflowError beyond 999999999 days. The bare `except` catches that, so it
  is one more failure (`TooLarge`).
- An instant is a number of seconds after `datetime.min`. `datetime.strptime`
  is the parameter `parse`, which yields `None` where it would raise.
- `float(v)` is the parameter `toFloat`, which yields `None` where it would
  raise. Its values are reals.
- `file_exist(gis.Igis.format_id(v))` is the parameter `exists_`, and
  `grass.overwrite()` is the parameter `overwrite`.
- The Green-Ampt check is modelled as the code states it. `ReadMapsNames`
  uses that version. A separate intended check is used by
  `ReadMapsNamesCorrected`, and lemmas show where the two part (see Findings).

The code does not check the following, and the model follows it:

- A zero `record_step` is accepted (`TimeWindow.ZeroRecordStepAccepted`).
- Fields after the third colon are ignored
  (`Durations.ParseDurationIgnoresExtraFields`).
- An end before the start gives a negative duration rather than an error
  (`TimeWindow.EndBeforeStartAccepted`).

## Model

| member | source | states |
|---|---|---|
| PyText.Split | t.sim.flood.py:311 | `split(":")` always yields at least one piece; what the pieces are is stated by `SplitPieces` and `SplitJoin` |
| PyText.SplitPieces | t.sim.flood.py:311 | the pieces of `split(":")` hold no colon, and joining them with colons gives back the text |
| PyText.SplitJoin | t.sim.flood.py:311 | splitting a join of colon-free pieces gives back exactly those pieces |
| PyText.SplitAppend | t.sim.flood.py:311 | splitting `a + ":" + b` gives the pieces of `a` followed by the pieces of `b` |
| PyText.ParseInt | t.sim.flood.py:312-314 | Python 2 `int()` yields a number only when the text holds at least one decimal digit; which texts it accepts is stated by `ParseIntNumerals`, and their values by `ParseIntSigned` (any sign and blanks) and by `ParseDigits`, `ParseNatText` and `ParsePad2` (digits only) |
| PyText.ParseIntSkipsBlanks | t.sim.flood.py:312-314 | leading blanks never change what `int()` reads |
| PyText.ParseIntOnlyNumerals | t.sim.flood.py:312-314 | whatever `int()` accepts is a numeral (`IsNumeral`): blanks, an optional `-` or `+` followed by blanks, at least one decimal digit, then blanks; any other character makes it raise ValueError |
| PyText.ParseIntNumerals | t.sim.flood.py:312-314 | `int()` accepts a text if and only if it is a numeral |
| PyText.ExampleNotNumerals | t.sim.flood.py:312-314 | `"1a"`, `"1.5"` and `"1 2"` make `int()` raise ValueError |
| PyText.ParseIntSigned | t.sim.flood.py:312-314 | a run of digits, with blanks before and after it and an optional `-` or `+` (blanks allowed after the sign), is read as the value of the digits, negated after `-` |
| PyText.ParseDigits | t.sim.flood.py:312-314 | `int()` of a non-empty run of decimal digits is the number they denote |
| PyText.ParseNatText | t.sim.flood.py:312-314 | `int(str(n)) == n` for every natural number |
| PyText.ParsePad2 | t.sim.flood.py:312-314 | `int()` reads a zero-padded two-digit field as its value |
| Durations.Field | t.sim.flood.py:312-314 | `int(data[i])` fails with IndexError exactly when the field is missing, and otherwise succeeds exactly when the field is an integer, giving its value |
| Durations.ParseDuration | t.sim.flood.py:307-322 | `str_to_timedelta`: whatever it accepts fits the range of a `timedelta`; the contract is only this bound, and the value and the refusals are stated by `ParseDurationFields` and `ParseDurationNeedsThreeIntegers` |
| Durations.ReadFields | t.sim.flood.py:311-318 | the body after `split(":")`: whatever it accepts fits the range of a `timedelta`; a failing field among the first three fails it (`ReadFieldsFails`) |
| Durations.Checked | t.sim.flood.py:315-321 | whatever it accepts fits the range of a `timedelta` |
| Durations.ParseDurationFields | t.sim.flood.py:311-322 | with three integer fields h, m, s, the text is accepted iff h ≥ 0, 0 ≤ m, s ≤ 59 and the total fits a `timedelta`; the result is then 3600·h + 60·m + s seconds |
| Durations.ReadFieldsFails | t.sim.flood.py:311-314 | one missing or non-integer field among the first three makes the parse fail |
| Durations.ParseDurationNeedsThreeIntegers | t.sim.flood.py:311-314 | fewer than three colon-separated fields, or a non-integer among the first three, is an error |
| Durations.ParseDurationIgnoresExtraFields | t.sim.flood.py:311-314 | anything after a third colon leaves the result unchanged |
| Durations.ParseThreeFields | t.sim.flood.py:311-318 | a text of exactly three integer fields goes straight to the range checks |
| Durations.ParseFormatDuration | t.sim.flood.py:307-322 | every non-negative whole-second duration within the 999999999-day limit of `timedelta` is read back from its `%02d:%02d:%02d` rendering |
| Durations.ExampleParse | t.sim.flood.py:307-322 | `"02:30:15"` is 9015 seconds |
| Durations.ExampleRender | t.sim.flood.py:307-322 | 9015 seconds renders as `"02:30:15"` |
| Durations.ExampleHoursPastADay | t.sim.flood.py:315-321 | `"25:00:00"` is accepted: hours have no cap of their own |
| Durations.ExampleSixtyMinutesRefused | t.sim.flood.py:317-318 | `"00:60:00"` is refused as out of range |
| Durations.ExampleNegativeSecondsRefused | t.sim.flood.py:317-318 | `"00:00:-1"` is refused as out of range |
| Durations.ExampleTwoFieldsRefused | t.sim.flood.py:311-314 | `"01:00"` fails on the missing third field |
| TimeWindow.ShapeOf | t.sim.flood.py:340-347 | a recognised shape is made of exactly the time options the user gave, and when none is recognised the given options match no shape |
| TimeWindow.ShapeOfPresence | t.sim.flood.py:340-347 | a shape is recognised iff the given time options are exactly the ones it is made of, so at most one shape holds and every other combination is refused |
| TimeWindow.ReadStamp | t.sim.flood.py:349-360 | an absent time option gives no instant; a given one is its parse, or a fatal error naming the option |
| TimeWindow.ReadDuration | t.sim.flood.py:334-337 | a relative-time option succeeds iff `str_to_timedelta` does, and any failure is fatal and names the option |
| TimeWindow.ResolveDuration | t.sim.flood.py:364-370 | the duration is the parsed `sim_duration` when given, otherwise `end - start` with no sign check |
| TimeWindow.ResolveWindow | t.sim.flood.py:349-370 | `end` is set iff `end_time` was given; `start` is the parsed `start_time` or `datetime.min`; the duration is resolved from them; a failure reports the first of `end_time`, `start_time` and `sim_duration` that does not parse |
| TimeWindow.ReadInputTime | t.sim.flood.py:324-370 | a bad record step fails first, then a bad combination of time options, before any instant is parsed; on success the shape is valid and the record step is the parsed one; past those two checks a failure reports the first of `end_time`, `start_time` and `sim_duration` that does not parse |
| TimeWindow.ResolveWindowAccepts | t.sim.flood.py:349-370 | past the combination check, the window resolves iff every given time option parses |
| TimeWindow.ReadInputTimeAccepts | t.sim.flood.py:324-370 | `read_input_time` returns iff the record step parses, the shape is one of the three, and every given time option parses |
| TimeWindow.ReadInputTimeWindow | t.sim.flood.py:349-370 | with an end, start + duration = end; without one, `sim_duration` was given and the duration is not negative; duration alone starts at `datetime.min` and has no end |
| TimeWindow.StartAndEndWindow | t.sim.flood.py:344-370 | start and end give a window from one to the other, whatever their order |
| TimeWindow.StartAndDurationWindow | t.sim.flood.py:342-370 | start and duration give that start, no end and that duration |
| TimeWindow.DurationOnlyWindow | t.sim.flood.py:340-370 | a duration alone starts at `datetime.min` and has no end |
| TimeWindow.EndBeforeStartAccepted | t.sim.flood.py:370 | an end two hours before the start is accepted with a duration of -7200 seconds |
| TimeWindow.ZeroRecordStepAccepted | t.sim.flood.py:334-337 | a record step of `00:00:00` is accepted |
| TimeWindow.OverSpecifiedRefused | t.sim.flood.py:340-347 | start, end and duration all given are refused as a bad combination |
| SimParam.OverrideFrom | t.sim.flood.py:399-401 | the key set never changes; an entry changes iff its key is visited with a non-empty option, and then takes the parsed value; the loop fails iff some such text is not a number, naming the first one |
| SimParam.ReadSimParam | t.sim.flood.py:396-401 | starting from the defaults, each of the six parameters is the parsed option when given and the default otherwise; any unparsable given value ends the program, and the model's error carries that parameter's key |
| SimParam.ReadSimParamOrderFree | t.sim.flood.py:399-401 | whether the loop succeeds, and the dictionary it leaves, do not depend on the visiting order; which refused value is reported does |
| SimParam.ReportedErrorDependsOnOrder | t.sim.flood.py:399-401 | with two refused texts, the one the loop visits first is the one reported, so the error depends on the visiting order |
| SimParam.NoOptionsKeepDefaults | t.sim.flood.py:263 | without numerical options the defaults are passed on unchanged |
| MapNames.NoNames | t.sim.flood.py:265-270 | the initial dictionaries map every known key to `None` |
| MapNames.CollectNames | t.sim.flood.py:375-382 | unknown options touch nothing, so the key sets never change; the only way the loop stops is on an existing output |
| MapNames.CollectNamesStops | t.sim.flood.py:378-380 | the loop stops iff some visited output option names an existing map while overwriting is off, and the error names the first such map |
| MapNames.CollectNamesUpdates | t.sim.flood.py:375-382 | a key visited with a non-empty option takes that text, and every other entry is unchanged |
| MapNames.CollectNamesFills | t.sim.flood.py:375-382 | over all options, every known key holds its option's text when given and its earlier entry otherwise |
| MapNames.CollectNamesBlocks | t.sim.flood.py:378-382 | over all options, the loop fails iff some output key has a given option naming an existing map and overwriting is off; the error carries that name |
| MapNames.CollectedFromUnnamed | t.sim.flood.py:265-270 | from the initial dictionaries, each known key ends holding its option's text when given and `None` otherwise |
| MapNames.GreenAmptFlag | t.sim.flood.py:384-389 | the flag the loop leaves is the membership test of the last list item only |
| MapNames.CheckGreenAmptValues | t.sim.flood.py:384-394 | the check of the source with the name its incompatibility test looks for left open: a successful check leaves the names unchanged, and its only errors are the two infiltration errors |
| MapNames.CheckGreenAmptAsWritten | t.sim.flood.py:390-394 | a successful check leaves the names unchanged; its only errors are the two infiltration errors |
| MapNames.CheckGreenAmptAsWrittenFails | t.sim.flood.py:384-394 | the check as written fails iff a map is called `in_hyd_conduct` and also a map is called `in_f` or no map is called `in_eff_por` or `in_cap_pressure` |
| MapNames.ReadMapsNames | t.sim.flood.py:372-394 | on success both dictionaries keep exactly their known keys |
| MapNames.ReadMapsNamesFills | t.sim.flood.py:375-382 | after success every known key holds its option's text when given and `None` otherwise |
| MapNames.ReadMapsNamesProtectsOutputs | t.sim.flood.py:378-382 | the program stops on an existing output iff some output option names an existing map while overwriting is off; the error names that map |
| MapNames.AsWrittenCheckIsInert | t.sim.flood.py:384-394 | when no map is literally called `in_hyd_conduct`, only the output protection can stop the program |
| MapNames.AsWrittenRefusesOddName | t.sim.flood.py:384-394 | an elevation map called `in_hyd_conduct` with an ordinary Manning map and no other input map is refused as an incomplete Green-Ampt set |
| MapNames.CheckGreenAmptIntended | t.sim.flood.py:383-394 | a successful check leaves the names unchanged; its only errors are the two infiltration errors |
| MapNames.GreenAmptIntendedAllOrNone | t.sim.flood.py:383-394 | the intended check accepts exactly no Green-Ampt map, or all three and no infiltration rate |
| MapNames.ReadMapsNamesCorrected | t.sim.flood.py:372-394 | on success both dictionaries keep exactly their known keys |
| MapNames.ReadMapsNamesCorrectedAccepts | t.sim.flood.py:372-394 | with the intended check, the run is configured iff no output is protected and the Green-Ampt options are all given or all empty, and in the first case `in_inf` is empty |
| MapNames.PartialGreenAmptAccepted | t.sim.flood.py:384-394 | a porosity map with ordinary elevation and Manning maps and no other input map is accepted as written and refused as intended |
| MapNames.RateSpellingMissed | t.sim.flood.py:390-391 | when the map names include `in_eff_por`, `in_cap_pressure`, `in_hyd_conduct` and `in_inf` but not `in_f`, the check as written accepts and the same check looking for `in_inf` refuses as incompatible |
| MapNames.RateWithGreenAmptAccepted | t.sim.flood.py:384-394 | all three Green-Ampt maps and an infiltration rate, with no input map called `in_hyd_conduct`, are accepted as written (the check never fires for them) and refused as intended |

## Left out

- `main` is left out: the lat/long location check, cProfile/pstats profiling and the `Messenger` sink are process-level side effects. A fatal message is a `Failure` here.
- The GRASS option declarations in the module header are parser metadata, not logic.
- `file_exist`, `gis.Igis.name_is_map`, `gis.Igis.name_is_stds`, `gis.Igis.format_id` and `grass.overwrite()` call into the GIS database. The model takes them as the parameters `exists_` and `overwrite`.
- `datetime.strptime` with format `%Y-%m-%d %H:%M` is the parameter `parse`; calendar arithmetic is not modelled.
- `float(v)` is the parameter `toFloat`. Binary floating point is not modelled; the values are reals.
- The simulation module is not part of this model: `SuperficialFlowSimulation`, its time stepping, record flushing and solver. So is the `stats_file` option it receives.
- The text of the fatal messages is left out. `Fatal` records which check fired and the option or map name it names.
- `SimParam.ReadSimParam`: no check guards `float(v)`. A text it refuses raises an uncaught ValueError whose message names the text, not the option. The program ends all the same; `BadNumber(key)` is the model's label for that exit, and the key is not something the program reports.
- `PyText.Split`: its contract only states that there is at least one piece. The content of the pieces is proved in the lemmas `SplitPieces` and `SplitJoin`, which keeps every use of the duration parser cheap for the verifier.
- `Durations.ParseDuration`: its contract is only the `timedelta` range bound. The value and the refusals are proved in the lemmas `ParseDurationFields` and `ParseDurationNeedsThreeIntegers`.
- `Durations.ParseFormatDuration`: the round trip covers non-negative whole-second durations within the 999999999-day limit. A `timedelta` can also be negative or hold microseconds, but `str_to_timedelta` never produces either.
- `TimeWindow.InputTimes` keeps the record step as seconds; the `timedelta` object itself is not modelled.

## Findings

| source | as written | input that shows it | evidently intended | confidence | as-written member | corrected member |
|---|---|---|---|---|---|---|
| t.sim.flood.py:384-394 | each pass of the loop overwrites `ga_bool`, and the test looks for the key names among the map names the user gave, so only a map literally called `in_hyd_conduct` can trigger the check | `in_eff_por=porosity`, ordinary names for the required `in_z` and `in_n`, no other input map | the three Green-Ampt options are given together or not at all | high, not executed | MapNames.PartialGreenAmptAccepted | MapNames.GreenAmptIntendedAllOrNone |
| t.sim.flood.py:390-391 | the incompatibility test looks for a map called `in_f`, a key that does not exist, instead of the option `in_inf` | map names that include `in_eff_por`, `in_cap_pressure`, `in_hyd_conduct` and `in_inf` (so that `ga_bool` is set) and not `in_f`: accepted as written, refused when the test looks for `in_inf` | a user-defined infiltration rate excludes the Green-Ampt model | high, not executed | MapNames.RateSpellingMissed | MapNames.ReadMapsNamesCorrectedAccepts |

`MapNames.ReadMapsNames` keeps the check as written, because that is what the
program runs. `MapNames.ReadMapsNamesCorrected` replaces it with the intended
check.
