# P2000 emergency-event sensor, modelled in Dafny

This Home Assistant sensor platform polls a P2000 feed. P2000 is the Dutch
emergency-services paging network, and the feed is an RSS feed of
dispatches. The platform shows the most recent dispatch that lies within a
radius of home. The project models the core of
`custom_components/p2000/sensor.py`:

- `P2000Data` keeps three fields:
  - a cursor, `_lastmsg_time`;
  - a cold-start flag, `_restart`;
  - the latest event, `_data`.

  Its `async_update` takes over once the feed has been fetched and parsed:
  - The first clean feed only sets the cursor to its newest entry's time.
  - Every later feed is walked oldest to newest. Entries older than the cursor are skipped. The cursor moves forward, coordinates are converted, and the distance to home is checked against the radius.
  - When the message text is non-empty after the loop, it becomes the new event together with the coordinates, rounded distance and time the last pass left.
  - A `ValueError` anywhere in the cycle clears the event. Every other exception escapes.
- `_convert_time` turns a feed date such as `Mon, 03 Feb 2020 10:15:00 +0100` into a naive date-time.
- `P2000Sensor` copies the event's text into its state. It exposes the event's coordinates, distance, time and an attribution line as attributes.

Layout:

| file | module | contents |
|---|---|---|
| `builtins.dfy` | `Builtins` | optional values; the exceptions of a cycle; `str.split`, `s[:-n]`, `str.replace(c, "")` and `round` |
| `datetime.dfy` | `DateTime` | date-times and their order; `strptime` for the layout `" %d %b %Y %H:%M:%S"`; its inverse `Format` |
| `cycle.dfy` | `UpdateCycle` | one update cycle as functions on values: `ConvertTime`, `Step` (one loop pass), `ScanFeed` (the loop), `Cycle` |
| `p2000.dfy` | `P2000` | the classes `P2000Data` and `P2000Sensor` |
| `properties.dfy` | `CycleProperties` | what the cycle guarantees, as lemmas |

The classes keep the source's shape:
- Their methods update fields in place.
- The loop is a `while` loop over a decreasing index, which is the same as `reversed(entries)`.
- Each pass of the loop returns early where the source uses `continue` or raises.
- Each method's postcondition ties the new fields to `UpdateCycle.Cycle` applied to the old ones. The lemmas about `Cycle` then carry over to the objects.

Some of the code's behaviour is easy to miss; the lemmas below state it precisely:
- An entry whose time *equals* the cursor is examined again, because the test is `lastmsg_time < self._lastmsg_time` (`EqualTimeProcessedAgain`). As a result, re-fetching the same feed right after the cold start surfaces its newest entry when that entry has non-zero coordinates within the radius and the other entries are strictly older (`SameFeedAfterColdStartSurfacesNewest`). After a later, non-cold cycle whose loop raised nothing, fetching the same feed again changes nothing (`UnchangedFeedIsIdempotent`).
- A date or coordinate that does not convert does not just skip its entry. It raises `ValueError`, which ends the loop and clears the event. The cursor keeps the value the loop had reached (`ValueErrorClearsEventKeepsCursor`). A date without a comma raises `IndexError`, which no handler catches, at cold start (`DateWithoutCommaEscapes`) and in the loop (`UnconvertibleLoopDateAborts`, `LoopErrorEscapes`). A ValueError at cold start clears the event and leaves the cold-start flag set (`ColdStartValueErrorClearsEvent`).
- An entry that is examined but has no coordinates still moves the cursor (`MissingCoordinateStillAdvances`). If it is the newest entry, the event mixes an older entry's text with its own time and zero coordinates (`EventTakesLastPassFields`).
- An out-of-range newest entry clears the text an older in-range entry had set, so the event is not replaced at all (`OutOfRangeNewestKeepsOldEvent`).

## Model

| member | source | states |
|---|---|---|
| Builtins.Split | custom_components/p2000/sensor.py:83 | `time.split(",")`: at least one piece, none containing the separator, joining back to the input; exactly one piece iff the separator is absent |
| Builtins.SplitJoin | custom_components/p2000/sensor.py:83 | splitting a join of separator-free pieces gives back the pieces |
| Builtins.SplitOfSeparatorFree | custom_components/p2000/sensor.py:83 | a string without the separator splits into itself |
| Builtins.DropLast | custom_components/p2000/sensor.py:83 | `[:-6]`: a prefix that is 6 characters shorter, or empty when the string is shorter than 6 |
| Builtins.RemoveAll | custom_components/p2000/sensor.py:152 | `title.replace("~", "")`: no `~` is left; the length drops by the number of `~`; every other character keeps its count |
| Builtins.RemoveAllAppend | custom_components/p2000/sensor.py:152 | deleting `~` distributes over concatenation |
| Builtins.RemoveAllAbsent | custom_components/p2000/sensor.py:152 | a title without `~` is unchanged |
| Builtins.RoundHalfEven | custom_components/p2000/sensor.py:164 | `round(dist)`: an integer within 1/2 of the distance, the even one on a tie |
| DateTime.DaysInMonth | custom_components/p2000/sensor.py:82-84 | the number of days `strptime` accepts in a month: 28 to 31, with February at 29 exactly in Gregorian leap years |
| DateTime.BeforeIrreflexive | custom_components/p2000/sensor.py:131 | no date-time is earlier than itself |
| DateTime.BeforeTransitive | custom_components/p2000/sensor.py:131 | the order `<` on date-times is transitive |
| DateTime.NotBeforeTransitive | custom_components/p2000/sensor.py:131 | "not earlier than" is transitive, so the cursor never moves back over several passes |
| DateTime.BeforeTotal | custom_components/p2000/sensor.py:131 | any two date-times are equal or one is earlier |
| DateTime.Later | custom_components/p2000/sensor.py:131-135 | the later of two date-times, which is one of them and not earlier than either |
| DateTime.DigitValue | custom_components/p2000/sensor.py:83 | the value 0..9 of a decimal digit |
| DateTime.DigitChar | custom_components/p2000/sensor.py:83 | the digit character of 0..9, a digit whose value is that number |
| DateTime.MonthName | custom_components/p2000/sensor.py:83 | `%b`: the English abbreviation of a month, three characters long |
| DateTime.MonthFrom | custom_components/p2000/sensor.py:83 | the first month from `m` on whose abbreviation matches ignoring case, with no earlier match |
| DateTime.MonthNumber | custom_components/p2000/sensor.py:83 | the month a `%b` field names, matched ignoring case, or none |
| DateTime.MonthNamesDistinct | custom_components/p2000/sensor.py:83 | different months have abbreviations that differ even ignoring case |
| DateTime.MonthNumberOfName | custom_components/p2000/sensor.py:83 | each month's abbreviation reads back as that month |
| DateTime.TwoDigits | custom_components/p2000/sensor.py:83 | a two-digit field read as 0..99 |
| DateTime.FourDigits | custom_components/p2000/sensor.py:83 | a four-digit field read as 0..9999 |
| DateTime.Strptime | custom_components/p2000/sensor.py:82-84 | parsing with `" %d %b %Y %H:%M:%S"`: a result is a valid date-time read from a string of that layout; every failure is ValueError |
| DateTime.Format | custom_components/p2000/sensor.py:83 | the 21-character string of that layout spelling a date-time |
| DateTime.ParseFormat | custom_components/p2000/sensor.py:82-84 | parsing the formatted string of a valid date-time gives it back |
| DateTime.FormatParse | custom_components/p2000/sensor.py:82-84 | a string that parses is, ignoring case, the formatted string of its result |
| UpdateCycle.ConvertTime | custom_components/p2000/sensor.py:80-84 | `_convert_time`: IndexError exactly when the string has no comma; otherwise ValueError or a valid date-time |
| UpdateCycle.RangeCheck | custom_components/p2000/sensor.py:154-157 | beyond the radius the text becomes empty and every other local is kept; within it the locals are kept; the pass continues with the cursor unchanged |
| UpdateCycle.MessageText | custom_components/p2000/sensor.py:152 | the text is never empty: the title without `~`, then a newline, the date string and a newline (used by `InRangeSetsMessage`) |
| UpdateCycle.Examine | custom_components/p2000/sensor.py:137-157 | the coordinate, distance and radius part of a pass leaves the cursor at the entry's time |
| UpdateCycle.Step | custom_components/p2000/sensor.py:122-157 | one pass of the loop never moves the cursor back |
| UpdateCycle.ScanFeed | custom_components/p2000/sensor.py:122-157 | the loop, oldest entry first, never moves the cursor back, and an exception ends it |
| UpdateCycle.ColdStart | custom_components/p2000/sensor.py:115-120 | KeyError exactly when the newest entry has no `published`, IndexError exactly when its date has no comma, and both leave the session alone; a date that converts sets the cursor to it and clears the flag, keeping the event; a ValueError clears the event and keeps the flag set (see also `ColdStartOnlySetsCursor`, `ColdStartValueErrorClearsEvent`, `DateWithoutCommaEscapes`) |
| UpdateCycle.AfterLoop | custom_components/p2000/sensor.py:159-172 | the cursor is the loop's and the flag is kept; ValueError clears the event and returns; any other abort escapes as that exception with the event kept; an empty text keeps the event; a non-empty text with no bound time raises UnboundLocalError; a changed event is built from the text, coordinates, rounded distance and time the loop left (see also `EventReplacedIffMessage`, `ValueErrorClearsEventKeepsCursor`, `LoopErrorEscapes`) |
| UpdateCycle.Cycle | custom_components/p2000/sensor.py:104-172 | one cycle keeps "cursor unset iff cold start", and ValueError never escapes it |
| P2000.P2000Data.constructor | custom_components/p2000/sensor.py:69-78 | a new object waits for its cold start, with no cursor and no event |
| P2000.P2000Data.LatestData | custom_components/p2000/sensor.py:86-91 | `latest_data` is the held event, or none when there is none |
| P2000.P2000Data.AsyncUpdate | custom_components/p2000/sensor.py:104-172 | the new cursor, flag and event, and whether an exception escapes, are those of `Cycle`; the cursor never moves back |
| P2000.P2000Data.ScanEntries | custom_components/p2000/sensor.py:122-157 | the `while` loop over the entries from last to first, writing the cursor as it goes, ends as `ScanFeed` does |
| P2000.P2000Data.Pass | custom_components/p2000/sensor.py:123-157 | one loop body, with its early `continue`s and raises, ends as `Step` does |
| P2000.ScanAbortPropagates | custom_components/p2000/sensor.py:122-172 | once a pass raises, the remaining entries are not visited |
| P2000.P2000Sensor.constructor | custom_components/p2000/sensor.py:178-182 | a new sensor is bound to its data object and has no state |
| P2000.P2000Sensor.DeviceStateAttributes | custom_components/p2000/sensor.py:199-210 | no attributes without an event; otherwise exactly longitude, latitude, distance, time and the attribution line, taken from the event |
| P2000.P2000Sensor.AsyncUpdate | custom_components/p2000/sensor.py:212-218 | the data object runs `Cycle`; the state becomes the event's text when the cycle returned and an event is held, and is kept otherwise |
| CycleProperties.UncleanFeedChangesNothing | custom_components/p2000/sensor.py:104-113 | a missing, malformed or empty feed changes nothing |
| CycleProperties.ColdStartOnlySetsCursor | custom_components/p2000/sensor.py:115-120 | the first clean feed sets the cursor to the newest entry's time, clears the flag and keeps the event |
| CycleProperties.ColdStartIgnoresBacklog | custom_components/p2000/sensor.py:115-120 | at cold start the result depends on the newest entry only |
| CycleProperties.DateWithoutCommaEscapes | custom_components/p2000/sensor.py:116-117 | a cold-start date without a comma raises IndexError out of the cycle |
| CycleProperties.OlderEntrySkipped | custom_components/p2000/sensor.py:127-132 | an entry strictly older than the cursor leaves the cursor and the text unchanged |
| CycleProperties.NotOlderEntryExamined | custom_components/p2000/sensor.py:131-150 | an entry not older than the cursor moves the cursor to its time; a latitude or longitude that does not convert, or a failed distance, raises ValueError |
| CycleProperties.UnconvertibleLoopDateAborts | custom_components/p2000/sensor.py:127-129 | a loop entry whose date does not convert ends the loop with that exception and the cursor unchanged; it is IndexError exactly when the date has no comma |
| CycleProperties.EqualTimeProcessedAgain | custom_components/p2000/sensor.py:131-152 | an in-range entry whose time equals the cursor sets the message text again |
| CycleProperties.MissingCoordinateStillAdvances | custom_components/p2000/sensor.py:135-145 | an examined entry without a latitude or longitude keeps the text and a zero distance, but has moved the cursor |
| CycleProperties.InRangeSetsMessage | custom_components/p2000/sensor.py:147-157 | within the radius the text becomes title without `~`, newline, date string, newline, and the pass keeps the coordinates and distance |
| CycleProperties.OutOfRangeClearsMessage | custom_components/p2000/sensor.py:147-157 | beyond the radius the text becomes empty |
| CycleProperties.ZeroCoordinateKeepsMessage | custom_components/p2000/sensor.py:147-157 | with a zero coordinate no distance is computed, and (for a non-negative radius) the text is kept |
| CycleProperties.NewestStamp | custom_components/p2000/sensor.py:127-135 | the latest of a start time and the entries' times: an upper bound of all of them that is one of them |
| CycleProperties.StepCursorIsLater | custom_components/p2000/sensor.py:127-135 | a pass that does not raise leaves the cursor at the later of the cursor and the entry's time |
| CycleProperties.CursorIsRunningMax | custom_components/p2000/sensor.py:122-135 | after a loop without exception, the cursor is the latest of its start and every entry's time |
| CycleProperties.CycleCursorIsRunningMax | custom_components/p2000/sensor.py:104-172 | the cursor after a clean non-cold cycle is that running maximum |
| CycleProperties.StepKeepsMessageBound | custom_components/p2000/sensor.py:127-157 | once the text is set, the date string and time it came from stay bound after a pass |
| CycleProperties.ExamineKeepsMessageBound | custom_components/p2000/sensor.py:137-157 | the coordinate part of a pass only sets the text with a bound date string |
| CycleProperties.ScanKeepsMessageBound | custom_components/p2000/sensor.py:122-157 | a non-empty text after the loop always comes with a bound time |
| CycleProperties.EventReplacedIffMessage | custom_components/p2000/sensor.py:159-168 | after a loop without exception the event is replaced exactly when the text is not empty, with the last pass's text, coordinates, rounded distance and time; the cursor is the loop's |
| CycleProperties.EventTakesLastPassFields | custom_components/p2000/sensor.py:137-140 | a newest entry without a latitude yields an event with an older text, zero coordinates and distance, and the newest time |
| CycleProperties.OutOfRangeNewestKeepsOldEvent | custom_components/p2000/sensor.py:154-168 | an out-of-range newest entry leaves the event as it was before the cycle |
| CycleProperties.ColdStartValueErrorClearsEvent | custom_components/p2000/sensor.py:115-172 | a ValueError from the newest date at cold start clears the event, returns, and keeps the cold-start flag set |
| CycleProperties.LoopErrorEscapes | custom_components/p2000/sensor.py:122-172 | any loop exception other than ValueError escapes the cycle, keeping the event and the cursor the loop reached |
| CycleProperties.ValueErrorClearsEventKeepsCursor | custom_components/p2000/sensor.py:170-172 | a ValueError in the loop clears the event but keeps the cursor reached, which is not before the old one |
| CycleProperties.EscapingErrorKeepsEvent | custom_components/p2000/sensor.py:104-172 | an escaping exception is never ValueError and leaves the event and the flag as they were |
| Builtins.SplitAtFirst | custom_components/p2000/sensor.py:83 | splitting at a first comma gives the piece before it, then the split of the rest |
| CycleProperties.ConvertFeedDate | custom_components/p2000/sensor.py:80-84 | `"<day>,<formatted date-time><6-char zone>"`, optionally followed by a further comma and anything, converts to that date-time |
| CycleProperties.OlderEntriesAllSkipped | custom_components/p2000/sensor.py:127-132 | entries all older than the cursor leave an empty text empty and the cursor unchanged |
| CycleProperties.SameFeedAfterColdStartSurfacesNewest | custom_components/p2000/sensor.py:115-168 | the cold start keeps no event, yet the same feed fetched again makes its in-range newest entry the event |
| CycleProperties.ExamineIgnoresText | custom_components/p2000/sensor.py:137-157 | from locals that differ only in the text, the coordinate part of a pass overwrites both texts alike or keeps both |
| CycleProperties.StepShadowed | custom_components/p2000/sensor.py:122-157 | one pass preserves the relation between a first run and a re-run started at the first run's final cursor |
| CycleProperties.ScanShadowed | custom_components/p2000/sensor.py:122-157 | the whole loop preserves that relation |
| CycleProperties.UnchangedFeedIsIdempotent | custom_components/p2000/sensor.py:104-172 | after a non-cold cycle that raised nothing, the same feed again leaves the cursor and event alone |

## Left out

- Fetching: the `feedparser.parse` call, the HTTP request, the etag and last-modified validators, and the feed URL built from regions and disciplines. The cycle gets the parsed feed as a value, or None when parsing gave nothing (a falsy result).
- Parsing the feed: `Entry` holds only the fields the cycle reads, which are the `published` string, `geo_lat`, `geo_long` and `title`.
- `float()` on coordinates: a present coordinate either converts to a number or raises ValueError (`Coordinate.Unparsable`). Float rounding, NaN and infinities are not modelled, and distances and coordinates are exact reals.
- The geodesic distance: geopy's `vincenty` is a function parameter of type `Geodesic`. It returns None when the library raises ValueError. Nothing about its accuracy is assumed.
- `@Throttle`, `async`/`await` and logging. A throttled call does nothing, so it behaves like the feed-None case.
- Platform setup, the configuration schema, and the `name`, `icon` and `state` properties, which only return stored values.
- `DateTime.Strptime`: accepts only the exact 21-character layout: a space, two-digit day, English month abbreviation in any case, four-digit year, then two-digit hour, minute and second. Python's `strptime` also accepts one-digit fields and runs of whitespace, its `\d` and `\s` patterns also match non-ASCII Unicode digits and whitespace, and it reads `%b` from the locale. For such strings the model raises ValueError where Python may not.
- `UpdateCycle.ConvertTime`: inherits the narrower date layout of `DateTime.Strptime`.
- `P2000.P2000Sensor.DeviceStateAttributes`: uses `"longitude"`, `"latitude"` and `"attribution"` as the values of Home Assistant's `ATTR_LONGITUDE`, `ATTR_LATITUDE` and `ATTR_ATTRIBUTION`, which are defined outside this file.
- Region, discipline, capcode and text filters, and an allow-no-location option: this file has none of them. Regions and disciplines only shape the feed URL, and an entry without coordinates is always discarded.
