# GPGGA acquisition in the GPS driver, modelled in Dafny

This project models the acquisition loop of the standalone GPS driver
(`gnss/gps_driver/src/standalone_driver.py`, function `driver()`). The driver
reads lines from a serial GNSS receiver. For each line it:

- decodes the bytes as UTF-8 and strips surrounding whitespace;
- keeps only lines that contain `$GPGGA` somewhere;
- splits the kept line on commas;
- decodes the UTC time, latitude, longitude and altitude;
- projects the position to UTM;
- writes all of this, plus the `hdop` and the raw sentence, into one reused
  `Customgps` message and publishes it.

A line that fails to decode (a missing field, a number that does not parse, a
position the projection rejects) is logged and skipped. Undecodable bytes are
skipped too.

The modules follow the steps of the driver:

- `Wrappers`: the `Option` type that carries Python's caught exceptions as `None`.
- `Text`: the string built-ins the driver relies on: `str.strip()` over
  Python's whitespace set, the substring test `in`, `split(",")` and `",".join`.
- `Numeric`: Python's numeric operations.
  - `int()` on floats truncates toward zero.
  - Float `//` and `%` are floor division and its non-negative remainder.
  - `float()` on decimal text, with its round trip against fixed-point
    formatting.
  - Numbers are exact reals.
- `TimeDecoder`: the `hhmmss.ss` decomposition and the header stamp.
- `Coordinates`: degree-minute conversion with the hemisphere sign. Also the
  `UtmPoint` type, and the projection (`utm.from_latlon`), which is a parameter
  `project` of every operation that needs it.
- `Driver`:
  - the `Fix` value that mirrors the message;
  - the `Msg` class, whose methods overwrite the message's fields in the
    driver's order;
  - the specification functions `LineToFix` (what a line publishes) and
    `AfterLine` (what the message holds afterwards);
  - the loop `DriverLoop` over a finite sequence of read outcomes.
- `DriverProperties`: properties of whole runs, of single lines and of
  sentences built from their fields.

The sub-second count written to `header.stamp.nsecs` is the fraction of the
second scaled by 10^7 (standalone_driver.py:46). That is a count of 10^-7 s
units, not of nanoseconds. The model keeps the scale as written: `StampNsecs`
lies in `[0, 10^7)`, and the lemmas `HalfSecondStamp` and `StampSplit` state
what it means.

## Model

| member | source | states |
|---|---|---|
| `Text.Strip` | gnss/gps_driver/src/standalone_driver.py:33 | the result is a slice of the input that neither starts nor ends with whitespace, taken right after the leading whitespace |
| `Text.StripRemovesOnlySpace` | gnss/gps_driver/src/standalone_driver.py:33 | every non-whitespace character of the line is kept by `strip()` |
| `Text.StripIdempotent` | gnss/gps_driver/src/standalone_driver.py:33 | stripping twice is stripping once |
| `Text.Contains` | gnss/gps_driver/src/standalone_driver.py:35 | the filter holds exactly when `$GPGGA` occurs at some position of the line: a substring test, not a prefix test |
| `Text.Split` | gnss/gps_driver/src/standalone_driver.py:36 | splitting yields at least one field and no field contains a comma |
| `Text.Join` | gnss/gps_driver/src/standalone_driver.py:82 | the joined line starts with the first field |
| `Text.JoinSplit` | gnss/gps_driver/src/standalone_driver.py:82 | joining the split fields with commas gives the stripped line back |
| `Text.SplitJoin` | gnss/gps_driver/src/standalone_driver.py:36 | comma-free fields joined and split again are the same fields |
| `Numeric.Trunc` | gnss/gps_driver/src/standalone_driver.py:50 | `int()` of a float is the integer next to it toward zero, for both signs |
| `Numeric.TruncVersusFloor` | gnss/gps_driver/src/standalone_driver.py:50 | truncation is odd, equals the floor for non-negative values and exceeds it by one for negative non-integers |
| `Numeric.FloorDiv` | gnss/gps_driver/src/standalone_driver.py:42 | float `//` by a positive divisor gives `q` with `q <= x/m < q+1` |
| `Numeric.FloorDivUnique` | gnss/gps_driver/src/standalone_driver.py:42 | those bounds determine `x // m` |
| `Numeric.FloatMod` | gnss/gps_driver/src/standalone_driver.py:46 | float `%` by a positive divisor lies in `[0, m)` and completes `x == (x // m) * m + x % m` |
| `Numeric.ParseReal` | gnss/gps_driver/src/standalone_driver.py:41 | `float()` accepts a field if and only if its stripped text is an optional `+`/`-` followed by digits, one optional point and digits, with at least one digit; a blank field is rejected |
| `Numeric.ParseSignedGrammar` | gnss/gps_driver/src/standalone_driver.py:41 | an optional sign in front of an unsigned decimal is accepted if and only if the text has that form |
| `Numeric.ParseUnsignedGrammar` | gnss/gps_driver/src/standalone_driver.py:41 | an unsigned field is accepted if and only if it is digits, or digits, a point and digits, with at least one digit |
| `Numeric.ParseRealInteger` | gnss/gps_driver/src/standalone_driver.py:64 | a field of digits reads as its decimal value |
| `Numeric.ParseRealDecimal` | gnss/gps_driver/src/standalone_driver.py:49 | a field `digits.digits` reads as the whole part plus the fraction scaled by its length |
| `Numeric.ParseFormatDecimal` | gnss/gps_driver/src/standalone_driver.py:56 | a number printed with a fixed number of decimals reads back as exactly that number, for either sign |
| `Numeric.ParseFormatUnsigned` | gnss/gps_driver/src/standalone_driver.py:56 | the same round trip for an unsigned field |
| `Numeric.ParseSignedNegative` | gnss/gps_driver/src/standalone_driver.py:41 | a leading minus negates the value the rest reads as |
| `TimeDecoder.Hours` | gnss/gps_driver/src/standalone_driver.py:42 | the hours are the `utc` digits above the fourth place: `h*10000 <= utc < h*10000 + 10000` |
| `TimeDecoder.Minutes` | gnss/gps_driver/src/standalone_driver.py:43 | the minutes lie in `[0, 100)` and bound what is left after the hours |
| `TimeDecoder.Seconds` | gnss/gps_driver/src/standalone_driver.py:44 | the seconds lie in `[0, 100)` and `h*10000 + m*100 + s == utc` |
| `TimeDecoder.SecondsOfDay` | gnss/gps_driver/src/standalone_driver.py:45 | the seconds since midnight are the clock reading less 6400 per hour and 40 per minute, and not negative for a reading that is not negative |
| `TimeDecoder.StampSecs` | gnss/gps_driver/src/standalone_driver.py:71 | for a reading that is not negative, the whole-second stamp is the seconds since midnight rounded down |
| `TimeDecoder.StampNsecs` | gnss/gps_driver/src/standalone_driver.py:46 | the sub-second count lies in `[0, 10^7)` |
| `TimeDecoder.ClockRoundTrip` | gnss/gps_driver/src/standalone_driver.py:42-44 | a reading `hh*10000 + mm*100 + ss` with `mm, ss < 100` decodes to exactly `hh`, `mm`, `ss` |
| `TimeDecoder.SecondsOfDayRange` | gnss/gps_driver/src/standalone_driver.py:45 | a valid time of day gives seconds in `[0, 86400)` and a whole-second stamp of `h*3600 + m*60 + floor(s)` |
| `TimeDecoder.StampSplit` | gnss/gps_driver/src/standalone_driver.py:46 | for a non-negative time, `secs*10^7 + nsecs` is the seconds of the day times `10^7`, truncated |
| `TimeDecoder.HalfSecondStamp` | gnss/gps_driver/src/standalone_driver.py:41-46 | 123519.5 is stamped 45319 s and 5000000 units |
| `TimeDecoder.WholeSecondStamp` | gnss/gps_driver/src/standalone_driver.py:41-46 | 123519 is stamped 45319 s and 0 units |
| `Coordinates.Degrees` | gnss/gps_driver/src/standalone_driver.py:50 | for a non-negative reading, the whole degrees `DD` satisfy `DD*100 <= v < DD*100 + 100` |
| `Coordinates.MinutesPart` | gnss/gps_driver/src/standalone_driver.py:51 | the minutes complete `DD*100 + mm == v` and lie in `[0, 100)` for a non-negative reading |
| `Coordinates.DegMinToDecimal` | gnss/gps_driver/src/standalone_driver.py:52 | decimal degrees lie in `[DD, DD+1)` when the minutes are below sixty |
| `Coordinates.DegMinRoundTrip` | gnss/gps_driver/src/standalone_driver.py:49-52 | a packed `degrees*100 + minutes` converts to `degrees + minutes/60` |
| `Coordinates.DegMinOdd` | gnss/gps_driver/src/standalone_driver.py:50-52 | a negative reading converts to the negation of the positive one |
| `Coordinates.PositiveReading` | gnss/gps_driver/src/standalone_driver.py:52 | a positive reading converts to a positive number of degrees |
| `Coordinates.Latitude` | gnss/gps_driver/src/standalone_driver.py:49-54 | the latitude is the converted reading or its negation |
| `Coordinates.Longitude` | gnss/gps_driver/src/standalone_driver.py:56-61 | the longitude is the converted reading or its negation |
| `Coordinates.LatitudeMirror` | gnss/gps_driver/src/standalone_driver.py:53-54 | for every reading, `S` gives the negation of any other hemisphere text, and negating the reading negates the latitude |
| `Coordinates.LongitudeMirror` | gnss/gps_driver/src/standalone_driver.py:60-61 | for every reading, `W` gives the negation of any other hemisphere text, and negating the reading negates the longitude |
| `Coordinates.LatitudeSign` | gnss/gps_driver/src/standalone_driver.py:53-54 | for a positive reading, the latitude is negative if and only if the hemisphere is `S` |
| `Coordinates.LongitudeSign` | gnss/gps_driver/src/standalone_driver.py:60-61 | for a positive reading, the longitude is negative if and only if the hemisphere is `W` |
| `Coordinates.LatitudeExample` | gnss/gps_driver/src/standalone_driver.py:49-54 | `4807.038` is 48.1173 degrees north and -48.1173 south |
| `Coordinates.LongitudeExample` | gnss/gps_driver/src/standalone_driver.py:56-61 | `01131.000` is 11 + 31/60 degrees east and its negation west |
| `Driver.Field` | gnss/gps_driver/src/standalone_driver.py:41 | indexing a field fails exactly when the list is too short |
| `Driver.NumberField` | gnss/gps_driver/src/standalone_driver.py:41 | a numeric field is what `float()` makes of `data[k]` when it exists, and fails when the list is too short |
| `Driver.Prepare` | gnss/gps_driver/src/standalone_driver.py:41-67 | the values computed before the first write exist only for a sentence of at least ten fields |
| `Driver.Fill` | gnss/gps_driver/src/standalone_driver.py:71-80 | the writes before `hdop` leave `hdop` and the raw sentence as they were, set the frame `GPS1_Frame` and a sub-second count in range |
| `Driver.Record` | gnss/gps_driver/src/standalone_driver.py:71-83 | the record of a decoded sentence is what the writes give whatever the message held before, and is well formed when the raw line holds `$GPGGA` |
| `Driver.DecodeFields` | gnss/gps_driver/src/standalone_driver.py:39-87 | a decoded record has at least ten fields, the fields joined back as its raw text, the frame `GPS1_Frame` and a sub-second count in range |
| `Driver.LineToFix` | gnss/gps_driver/src/standalone_driver.py:35-87 | a line publishes only if it contains `$GPGGA`, and then its record is well formed and carries the line itself as `gpgga_read` |
| `Driver.AfterLine` | gnss/gps_driver/src/standalone_driver.py:35-87 | a line without the tag leaves the message unchanged, and a published line leaves exactly its record in the message |
| `Driver.ReadText` | gnss/gps_driver/src/standalone_driver.py:33 | a read gives no line exactly when its bytes are not UTF-8, a timeout gives the empty line, and a line neither starts nor ends with whitespace |
| `Driver.Emitted` | gnss/gps_driver/src/standalone_driver.py:31-90 | whatever a single read publishes is well formed |
| `Driver.AfterRead` | gnss/gps_driver/src/standalone_driver.py:31-90 | undecodable bytes and a timeout leave the message unchanged, and after a read that publishes the message is the published record |
| `Driver.Publish` | gnss/gps_driver/src/standalone_driver.py:30-90 | a run publishes at most one record per read |
| `Driver.PublishedFrom` | gnss/gps_driver/src/standalone_driver.py:30-90 | the driver publishes at most one record per read |
| `Driver.PublishSnoc` | gnss/gps_driver/src/standalone_driver.py:83 | one more read appends its own record, if any, after everything published before |
| `Driver.PublishedStep` | gnss/gps_driver/src/standalone_driver.py:30-90 | the driver's output after read `i` is its output before it plus what read `i` emits |
| `Driver.Msg.constructor` | gnss/gps_driver/src/standalone_driver.py:16 | a fresh message holds the default record |
| `Driver.Msg.HandleLine` | gnss/gps_driver/src/standalone_driver.py:39-87 | handling a line returns `LineToFix(line)` whatever the message held, leaves the message at `AfterLine` of its old contents, and a published record is the message's contents |
| `Driver.Msg.HandleRead` | gnss/gps_driver/src/standalone_driver.py:31-90 | one turn of the loop publishes exactly what `Emitted` says and updates the message as `AfterRead` says |
| `Driver.Msg.WriteFix` | gnss/gps_driver/src/standalone_driver.py:71-80 | the writes before `hdop` set the stamp, the frame, the position and the UTM fields and nothing else |
| `Driver.Msg.WriteStamp` | gnss/gps_driver/src/standalone_driver.py:71-73 | the header writes set `secs`, `nsecs` and `frame_id` only |
| `Driver.Msg.WritePosition` | gnss/gps_driver/src/standalone_driver.py:74-80 | the position writes set latitude, longitude, altitude and the four UTM fields only |
| `Driver.SkippedBeforeWrites` | gnss/gps_driver/src/standalone_driver.py:85-87 | a GPGGA line that fails before the first write publishes nothing and leaves the message as it was |
| `Driver.HdopRejected` | gnss/gps_driver/src/standalone_driver.py:81 | a line whose `hdop` does not parse publishes nothing, but leaves the message with the new stamp, frame, position and UTM and the old `hdop` and raw sentence |
| `Driver.Decoded` | gnss/gps_driver/src/standalone_driver.py:71-83 | a fully decoded line overwrites every field: the message equals the record of that line alone |
| `Driver.DriverLoop` | gnss/gps_driver/src/standalone_driver.py:30-90 | the loop publishes exactly `PublishedFrom(outcomes)`: one record per decoded sentence, in the order of the reads |
| `DriverProperties.PublishAppend` | gnss/gps_driver/src/standalone_driver.py:30-90 | the records of two consecutive runs of reads are those of each run, in order |
| `DriverProperties.PublishKeeps` | gnss/gps_driver/src/standalone_driver.py:83 | a property every single emission has holds of every published record |
| `DriverProperties.PublishedWellFormed` | gnss/gps_driver/src/standalone_driver.py:71-83 | every record the driver publishes has the frame `GPS1_Frame`, a `$GPGGA` raw line and a sub-second count in `[0, 10^7)` |
| `DriverProperties.SkippedReadInvisible` | gnss/gps_driver/src/standalone_driver.py:85-90 | a read that publishes nothing has no effect on what the rest of the run publishes |
| `DriverProperties.NoLineNoRecord` | gnss/gps_driver/src/standalone_driver.py:88-90 | undecodable bytes and an empty read publish nothing |
| `DriverProperties.EmptyLineIgnored` | gnss/gps_driver/src/standalone_driver.py:35 | the empty line of a timed-out read does not pass the filter |
| `DriverProperties.TagAnywhere` | gnss/gps_driver/src/standalone_driver.py:35 | a line with `$GPGGA` anywhere, not only at its start, passes the filter |
| `DriverProperties.NonSentenceIgnored` | gnss/gps_driver/src/standalone_driver.py:35 | a line without the tag publishes nothing and leaves the message unchanged |
| `DriverProperties.PrepareSucceeds` | gnss/gps_driver/src/standalone_driver.py:41-67 | the values before the first write decode if and only if there are ten fields, fields 1, 2, 4 and 9 parse, and the projection accepts the position |
| `DriverProperties.TruncatedSentence` | gnss/gps_driver/src/standalone_driver.py:64 | a sentence with fewer than ten fields publishes nothing and leaves the message unchanged |
| `DriverProperties.FieldRejected` | gnss/gps_driver/src/standalone_driver.py:41-64 | a time, latitude, longitude or altitude that does not parse publishes nothing and leaves the message unchanged |
| `DriverProperties.AfterLineIdempotent` | gnss/gps_driver/src/standalone_driver.py:71-82 | handling the same line twice in a row leaves the message as handling it once |
| `DriverProperties.SentenceSplits` | gnss/gps_driver/src/standalone_driver.py:36 | a sentence assembled from comma-free fields splits back into exactly those fields and passes the filter |
| `DriverProperties.PrepareOf` | gnss/gps_driver/src/standalone_driver.py:41-67 | fields that read as given values yield exactly those values, with hemisphere signs, whenever the projection accepts them |
| `DriverProperties.SentenceDecodes` | gnss/gps_driver/src/standalone_driver.py:35-36 | an assembled sentence decodes through its own fields |
| `DriverProperties.FieldsDecode` | gnss/gps_driver/src/standalone_driver.py:41-82 | the fields of a sentence decode to the record of the values they read as |
| `DriverProperties.SentenceRoundTrip` | gnss/gps_driver/src/standalone_driver.py:33-83 | a sentence whose numeric fields read as given values publishes the record of exactly those values, stamped from the time, with hemisphere signs and the sentence as raw text, or nothing when the projection rejects the position |

## Left out

- ROS node setup, the publisher, the serial port and its parameters, and the logging calls (standalone_driver.py:9-28, 37, 68, 86, 89) are not modelled. Reads are a finite sequence of outcomes, and publishing appends a snapshot of the message to a sequence.
- The `while not rospy.is_shutdown()` loop is modelled over a finite sequence of reads. Shutdown and `ROSInterruptException` are not modelled.
- `utm.from_latlon` is a parameter `project`. Its `None` stands for the out-of-range error the library raises, which the driver catches as a `ValueError`. The projection's numbers are not modelled.
- UTF-8 decoding is not modelled byte by byte. A read is either text, undecodable bytes or a timeout (an empty read).
- `Numeric.ParseReal` accepts only the decimal forms `[sign] digits [. digits]` and `[sign] . digits`, with surrounding whitespace. It returns `None` for exponents, `inf`/`nan` and underscores, which Python's `float()` would accept.
- `Numeric.ParseReal` accepts only the ASCII digits `0`-`9`. Python's `float()` also accepts every other Unicode decimal digit (category Nd), such as Arabic-Indic or full-width digits.
- `Numeric.ParseReal` strips the full `str.isspace()` set around a field. Python's `float()` trims only ASCII whitespace, after turning non-ASCII whitespace into spaces. So the separators U+001C to U+001F around a number are stripped by the model, but make `float()` raise `ValueError`.
- Exceptions from the serial read and from `pub.publish` are not modelled: each read is assumed to return and each publish to succeed. In the driver, any other exception ends the node through the catch-all handler (standalone_driver.py:95-97). One example is a `SerialException` from `readline`. Another is a publish that fails to serialise a field, such as a negative `stamp.secs` from a negative time field. In both cases no further sentence is read, whereas the model publishes the record and goes on.
- Floating-point rounding is not modelled: numbers are exact reals. A stamp computed with doubles can differ from the model by one unit where a product rounds across an integer.
- Float overflow is not modelled: numbers are exact reals, so an over-long decimal field (for example four hundred nines) decodes to a finite value, where Python's `float()` gives `inf`. In the driver, an `inf` latitude or longitude makes `int()` raise `OverflowError` (standalone_driver.py:50, 57), which the handler at :85 does not catch, so the node ends through the catch-all handler (standalone_driver.py:95-97). A time field above about 5 * 10^301 overflows to `inf` when it is scaled (standalone_driver.py:46), and `int()` of the resulting `nan` raises `ValueError`, so the line is skipped. In both cases the model publishes a record and goes on.
- The `seq` counter of the message header, which ROS fills in on publish, is not modelled.
- Numeric.FormatDecimal and its round-trip lemmas describe how a receiver prints numbers. They are a reference for `float()`, not part of the driver.
- The lab 2 analysis scripts and the LAB0 listener are not part of this model.
