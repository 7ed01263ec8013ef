# omarchy-nighttime-daytime, modelled in Dafny

The program switches an Omarchy desktop between light and dark themes at sunrise and
sunset. First it finds the host's approximate location. It tries three tiers in order:
the IP-geolocation service, the tz database's zone table (`zone1970.tab`), and an
estimate from the UTC offset. Then it polls. On every tick it decides whether it is day
or night. When that state changes, it picks a random theme of the matching mode and
passes it to the external theme command.

This project models the exact, sequential core of that program:

- `GeoParser` (`geo_parser.dfy`) models `parse_iso6709` and its nested `parse_part`.
  They decode the `±DDMM[SS]±DDDMM[SS]` coordinate notation of ISO 6709 into decimal
  degrees, as exact reals. The method `ParseIso6709` is the scan loop for the second sign.
  The function `Iso6709` is its specification. An encoder (`Encode`) is the partner
  for the round-trip lemmas.
- `Text` (`text.dfy`) models the string built-ins the program uses:
  - `int()` on a field of digits (`NatOf`), with `DigitsOf` as its inverse;
  - `str.strip()`, with Python's `str.isspace` character set;
  - `str.split(sep)`, with `Join` as its inverse.
- `Location` (`location.dfy`) models the fallback chain:
  - `get_fallback_location`'s line-by-line zone-table scan (`LookupZone`, specified by
    `ZoneCoordinates`);
  - the offset estimate `(hours*15 + 180) % 360 - 180` (`OffsetLongitude`);
  - the choice between the tiers in `main` (`ResolveLocation`).
- `Arith` (`arith.dfy`) holds `FloorMod`, Python's `%` on floats.
- `SunCalc` (`sun_calc.dfy`) holds `force_range`, the one-step wrap that the sun
  calculator uses.
- `DayNight` (`day_night.dfy`) models `get_current_state` as a pure function. Its
  inputs are the current instant and the optional sunrise/sunset pair.
- `Themes` (`themes.dfy`) models `set_random_theme`. The theme command's outcome is an
  input with three values: it succeeds; it fails in a way the function catches and
  reports as `False`; or it raises an error the function does not catch.
- `SchedulerLoop` (`scheduler.dfy`) models the polling loop of `main`:
  - the class `Scheduler` holds `last_state` and updates it on each `Tick`;
  - `Run` runs a finite sequence of ticks;
  - `TickRequests` specifies which theme modes a sequence of ticks asks for. A tick whose
    theme command raised leaves `last_state` alone, so the next tick asks again. A
    one-shot run does not stop at such a tick (`OneShotTicks`);
  - `Requests` is the simpler rule over day states, which applies when no command raises
    (`NoRaiseAgrees`).

Points where the program's behaviour is easy to misread (the model follows the code):

- The ordering test at `omarchy_nighttime_daytime.py:319` is a strict `sunrise < sunset`.
  When the two times are equal, the inverted branch is taken. It is then night at that
  one instant and day at every other (`DayNight.EqualTimesNightOnlyAtThatInstant`).
  A `<=` test would give the opposite.
- `parse_part` returns `0.0` for a digit count other than 4–7. It does not fail.
- A first character other than `+` gives the sign −1, even when that character is a digit.
- An error that the theme command raises and `set_random_theme` does not catch skips
  `last_state = current_state` (`omarchy_nighttime_daytime.py:395`) and the one-shot
  `break` (`:397-398`). The loop's handler (`:405-407`) then goes on to the next tick,
  which switches again. This happens, for example, with a command that exists but cannot
  be executed.
- A zone-table row may have no comment column. Its zone field then carries the line's
  newline, which `strip()` removes, so such rows match too.
- No tier checks that the coordinate is within geodetic bounds. The table tier decodes
  `+9959+00000` to latitude 99.98. Only the offset tier is proved to stay in range:
  latitude 0, longitude in `[-180, 180)`.

## Model

| member | source | states |
|---|---|---|
| `Text.NatOf` | omarchy_nighttime_daytime.py:66-72 | a field of n decimal digits reads as a number below 10^n |
| `Text.NatOfDigitsOf` | omarchy_nighttime_daytime.py:66-72 | reading back a zero-padded field of width w gives any number below 10^w that was written |
| `Text.TrimStart` | omarchy_nighttime_daytime.py:102 | the result is a suffix of the input; everything dropped is whitespace; the result does not start with whitespace |
| `Text.TrimEnd` | omarchy_nighttime_daytime.py:104 | the result is a prefix of the input; everything dropped is whitespace; the result does not end with whitespace |
| `Text.Strip` | omarchy_nighttime_daytime.py:102-104 | `str.strip()` is `lstrip` then `rstrip`: it drops exactly the leading and trailing whitespace (by the contracts of `TrimStart` and `TrimEnd`) and leaves an already trimmed string as it is |
| `Text.StripEmptyIffBlank` | omarchy_nighttime_daytime.py:102 | `line.strip()` is empty exactly when the line holds only whitespace |
| `Text.Split` | omarchy_nighttime_daytime.py:103 | splitting gives at least one field and no field contains the separator |
| `Text.JoinSplit` | omarchy_nighttime_daytime.py:103 | joining the fields with the separator gives the line back |
| `Text.SplitNoSeparator` | omarchy_nighttime_daytime.py:103 | a string without the separator splits into itself alone |
| `Text.SplitAtFirst` | omarchy_nighttime_daytime.py:103 | splitting at the first separator yields the text before it, then the split of the rest |
| `Text.StripTrailingSpace` | omarchy_nighttime_daytime.py:104 | a string without whitespace at its ends, followed by whitespace only, strips back to itself |
| `GeoParser.FirstSignFrom` | omarchy_nighttime_daytime.py:50-54 | the result is the first `+`/`-` at or after the start index, or none when no sign occurs there |
| `GeoParser.LongitudeStart` | omarchy_nighttime_daytime.py:50-54 | the longitude starts at the first `+`/`-` from index 1 on, so a leading sign is never taken for it (by the contract of `FirstSignFrom`) |
| `GeoParser.FieldDegrees` | omarchy_nighttime_daytime.py:65-73 | a 4–7 digit field decodes to a non-negative number of degrees |
| `GeoParser.ParsePart` | omarchy_nighttime_daytime.py:61-74 | a half decodes exactly when its digit count is not 4–7 or its digits are all decimal; any other count gives 0.0; a `+` gives a non-negative value, anything else a non-positive one |
| `GeoParser.Iso6709` | omarchy_nighttime_daytime.py:39-78 | no sign at index 1 or later gives none; otherwise the result exists iff both halves split at the first such sign decode, and latitude/longitude are their decodings |
| `GeoParser.ParseIso6709` | omarchy_nighttime_daytime.py:44-78 | the scanning loop with its `break` computes exactly the specified decoding |
| `GeoParser.Field` | omarchy_nighttime_daytime.py:65-73 | the written digit field holds only decimal digits and has degree-width + 2 digits (+ 2 with seconds), the widths `parse_part` slices |
| `GeoParser.Encode` | omarchy_nighttime_daytime.py:41 | a written half is a sign followed by degree-width + 2 digits (+ 2 with seconds), so 4–7 digits for the 2- and 3-digit degree widths the notation uses |
| `GeoParser.FieldThenFieldDegrees` | omarchy_nighttime_daytime.py:65-73 | a degree/minute[/second] field written with 2 or 3 degree digits decodes to the angle's magnitude |
| `GeoParser.EncodeThenParsePart` | omarchy_nighttime_daytime.py:61-74 | decoding a written half returns its signed angle (minutes/60, seconds/3600) |
| `GeoParser.EncodeThenParse` | omarchy_nighttime_daytime.py:39-78 | a coordinate written as two halves decodes to exactly those two angles |
| `GeoParser.AucklandExample` | omarchy_nighttime_daytime.py:41 | `-3652+17446` decodes to (−(36+52/60), 174+46/60) |
| `Location.Skipped` | omarchy_nighttime_daytime.py:102 | a line is passed over when it starts with `#` or strips to nothing, that is when it holds only whitespace (by `StripEmptyIffBlank`) |
| `Location.LineCoordinates` | omarchy_nighttime_daytime.py:102-106 | a comment or blank line gives nothing; otherwise the decoded column 1 when there are at least 3 tab-separated fields and the stripped column 2 equals the zone; a row of either shape yields its coordinate (by `RowContributes`) |
| `Location.ZoneCoordinates` | omarchy_nighttime_daytime.py:100-108 | the first line that yields a coordinate decides the result, and the search fails exactly when none does (by `FirstMatchWins` and `NoMatchIff`) |
| `Location.LookupZone` | omarchy_nighttime_daytime.py:100-108 | the line loop with its early return computes the first-match search over the table |
| `Location.FirstMatchWins` | omarchy_nighttime_daytime.py:101-108 | the first line that yields a coordinate decides the answer, whatever follows it |
| `Location.NoMatchIff` | omarchy_nighttime_daytime.py:101-108 | the search fails exactly when no line yields a coordinate; matching lines with unparseable coordinates are passed over |
| `Location.SplitRow` | omarchy_nighttime_daytime.py:103-104 | a row `codes TAB coord TAB zone`, followed by `TAB comment` or by a whitespace line ending, splits with coord as field 1 and the zone, once stripped, as field 2 |
| `Location.EncodedHasNoTab` | omarchy_nighttime_daytime.py:103 | a written coordinate holds no tab |
| `Location.RowNotSkipped` | omarchy_nighttime_daytime.py:102 | a row whose coordinate column starts with a sign is neither comment nor blank |
| `Location.RowContributes` | omarchy_nighttime_daytime.py:102-105 | a row naming the zone in its third column, with or without a comment column, contributes the decoding of its second column |
| `Location.TableRowYields` | omarchy_nighttime_daytime.py:100-108 | a well-formed zone-table row, with or without a comment column, is found under its own zone name and yields the coordinate it was written from |
| `Location.OffsetHours` | omarchy_nighttime_daytime.py:116 | the UTC offset in hours, `total_seconds() / 3600.0`, exact for whole seconds |
| `Location.OffsetLongitude` | omarchy_nighttime_daytime.py:116-117 | the offset estimate always lies in [−180, 180) |
| `Location.OffsetLongitudeExact` | omarchy_nighttime_daytime.py:116-117 | 240 × longitude = ((offsetSeconds + 43200) mod 86400) − 43200 |
| `Location.WholeHourOffsets` | omarchy_nighttime_daytime.py:117 | whole-hour offsets from UTC−12 to UTC+11 give 15° per hour, and offset 0 gives longitude 0 |
| `Location.OffsetLongitudePeriodic` | omarchy_nighttime_daytime.py:117 | offsets a day apart give the same longitude (so UTC+12 lands on −180) |
| `Location.TableTier` | omarchy_nighttime_daytime.py:96-108 | the table is consulted only for a non-empty zone name and an existing table file; then its result is the first-match search |
| `Location.GetFallbackLocation` | omarchy_nighttime_daytime.py:94-121 | with a non-empty zone name, an available table and a match, the table's coordinate; otherwise latitude 0 and the offset longitude, within [−180, 180) |
| `Location.ResolveLocation` | omarchy_nighttime_daytime.py:358-367 | the network coordinate unless skipped or absent; then the table tier; then the offset tier |
| `Arith.FloorMod` | omarchy_nighttime_daytime.py:117 | Python's float `%` by a positive modulus lands in [0, m) |
| `SunCalc.ForceRange` | omarchy_nighttime_daytime.py:124-129 | the result differs from v by 0, +m or −m; v in [0, m) is unchanged; v in [−m, 2m) lands in [0, m) |
| `SunCalc.ForceRangeIsFloorMod` | omarchy_nighttime_daytime.py:124-129 | within one period either side of the range, the single step agrees with `v % m` |
| `SunCalc.ForceRangeSingleStep` | omarchy_nighttime_daytime.py:124-129 | a value two or more periods high is not brought into range |
| `DayNight.CurrentState` | omarchy_nighttime_daytime.py:313-328 | absent sun times give day; if sunrise < sunset, day iff sunrise ≤ now ≤ sunset; otherwise night iff sunset ≤ now ≤ sunrise |
| `DayNight.SwapInvertsState` | omarchy_nighttime_daytime.py:319-328 | exchanging two different sun times flips the state at every instant |
| `DayNight.EqualTimesNightOnlyAtThatInstant` | omarchy_nighttime_daytime.py:319-328 | equal sun times give night only at that instant |
| `DayNight.BoundariesInclusive` | omarchy_nighttime_daytime.py:320 | sunrise and sunset themselves are day; one unit before sunrise and after sunset is night |
| `DayNight.DaytimeIsContiguous` | omarchy_nighttime_daytime.py:319-323 | in an ordinary day the day instants form one unbroken stretch |
| `Themes.Bucket` | omarchy_nighttime_daytime.py:225 | `themes.get(mode, [])`: the catalog's list for the mode, or the empty list when the mode is missing |
| `Themes.SetRandomTheme` | omarchy_nighttime_daytime.py:224-244 | an empty or missing bucket picks nothing, invokes nothing and returns False; otherwise the pick is in the bucket; the command runs iff not dry-run; the result is True iff dry-run or the command succeeded; the call raises iff the command ran and raised |
| `SchedulerLoop.ModeFor` | omarchy_nighttime_daytime.py:393 | `light` for day and `dark` for night |
| `SchedulerLoop.RequestsSnoc` | omarchy_nighttime_daytime.py:391-395 | one more tick adds a request exactly when its state differs from the remembered one (when no theme command raises; see `NoRaiseAgrees`) |
| `SchedulerLoop.RequestsAlternate` | omarchy_nighttime_daytime.py:391-395 | requested modes alternate, and the first never repeats the mode of the remembered state (when no theme command raises; see `NoRaiseAgrees`) |
| `SchedulerLoop.ThemeTracksState` | omarchy_nighttime_daytime.py:389-395 | after a run the last requested mode matches the current state; with no request the state never left the remembered one (when no theme command raises; see `NoRaiseAgrees`) |
| `SchedulerLoop.SteadyStateNoRequests` | omarchy_nighttime_daytime.py:391 | ticks that repeat the remembered state request nothing (when no theme command raises; see `NoRaiseAgrees`) |
| `SchedulerLoop.DayThenNightOnce` | omarchy_nighttime_daytime.py:389-395 | from day, two night ticks give exactly one dark request (when no theme command raises; see `NoRaiseAgrees`) |
| `SchedulerLoop.Scheduler.constructor` | omarchy_nighttime_daytime.py:385 | the scheduler starts with no remembered state |
| `SchedulerLoop.Remembered` | omarchy_nighttime_daytime.py:394-407 | after one tick the remembered state is the tick's state, unless the tick switched and its theme command raised, which skips the assignment and leaves the old state |
| `SchedulerLoop.TickRequests` | omarchy_nighttime_daytime.py:389-398 | each tick asks for the mode of its state exactly when that state differs from the remembered one, retries included (by `TickRequestsSnoc` and `RaisedSwitchIsRetried`) |
| `SchedulerLoop.OneShotTicks` | omarchy_nighttime_daytime.py:397-407 | a one-shot run goes on past ticks whose theme command raised and stops after the first tick that does not raise (by `OneShotTicksShape`) |
| `SchedulerLoop.TickRequestsSnoc` | omarchy_nighttime_daytime.py:389-395 | one more tick adds a request exactly when its state differs from the remembered one, and the remembered state then follows that tick's outcome |
| `SchedulerLoop.NoRaiseAgrees` | omarchy_nighttime_daytime.py:389-395 | when no theme command raises, the requests over ticks are the requests over their day states, and the remembered state is the last state |
| `SchedulerLoop.RaisedSwitchIsRetried` | omarchy_nighttime_daytime.py:394-395 | a switch whose theme command raised is requested again by the next tick in the same state |
| `SchedulerLoop.OneShotTicksShape` | omarchy_nighttime_daytime.py:397-398 | a one-shot run executes a prefix of the ticks; every tick but the last raised, and it stops early only after a tick that did not raise |
| `SchedulerLoop.NoRaiseRun` | omarchy_nighttime_daytime.py:385-398 | when no theme command raises, the executed ticks' requests follow the state-level rule |
| `SchedulerLoop.Scheduler.Tick` | omarchy_nighttime_daytime.py:389-395 | a switch is requested iff the state differs from the remembered one (so the first tick always switches), in `light` for day and `dark` for night; the new state is remembered when the theme command returns, whether or not it succeeded, and the old one is kept when it raises |
| `SchedulerLoop.Run` | omarchy_nighttime_daytime.py:385-407 | the modes requested are those the tick-level rule gives for the executed ticks; each request honours the catalog; in one-shot mode every request but the last raised |

## Left out

- `get_sun_times` (omarchy_nighttime_daytime.py:134-207) and `days_since_j2000` are left out. They are floating-point trigonometry. The day/night decision takes the sunrise/sunset pair, or its absence, as an input.
- `get_location_from_ip` is left out because it is an HTTP request and JSON decoding. Its answer is the `ipLocation` input of `ResolveLocation`.
- `get_system_timezone` is left out because it runs `timedatectl` and reads `/etc/timezone`. The zone name is an input.
- Opening the zone table, `os.path.exists`, and read errors part-way through the file are left out. The table is an optional sequence of lines.
- The `except` branch that returns `(0.0, 0.0)` from the offset fallback is left out. It is reached only when `datetime` itself raises.
- `datetime.now()` and `astimezone()` are left out. The instant and the UTC offset are inputs. The offset is in whole seconds.
- `get_themes` is left out because it is directory listing. The catalog is an input.
- The external theme command is left out. Its outcome is an input (success, a caught failure, or an uncaught error), and its error messages are not modelled.
- `random.choice` is modelled as "some element of the bucket". Its uniform distribution is not modelled.
- These are left out as I/O and process plumbing:
  - systemd install and uninstall;
  - log redirection and argv handling;
  - the local-time display;
  - `time.sleep`;
  - `KeyboardInterrupt`.
- The per-tick exception recovery is modelled only for errors raised by the theme command. The sun-time and day/night computations are taken as inputs, so errors raised there are not modelled.
- The global `LATITUDE`/`LONGITUDE` are not modelled as globals. The coordinate is a value.
- The `while True` loop is modelled by `Run` over a finite sequence of ticks.
- Degrees, the offset longitude and `force_range` are exact reals. Float rounding is not modelled.
- GeoParser.ParsePart: a digit field is accepted only when it is all ASCII digits. This is weaker than Python's `int()`. `int()` also accepts surrounding whitespace, underscores between digits, a leading sign and non-ASCII decimal digits. For example, the longitude half `+123-4` decodes in Python to 123 − 4/60, but the model refuses it.
