# DS3231 clock codec and the fifteen-second game

A Dafny model of the two Python scripts behind a Raspberry Pi Pico game that
measures how well a player feels fifteen seconds go by:

- `rtc_ds3231.py`, a driver library for the DS3231 real-time clock. It converts
  binary-coded decimal (BCD), decodes the seven time registers (seconds,
  minutes, hours with its 12/24-hour mode, weekday, date, month, year), formats
  the date and time, counts seconds since midnight and builds the payload
  written when the clock is set.
- `main.py`, the game. It has its own smaller DS3231 class (`_bcd`, `get`,
  `now`, `sec_midnight`), the round logic of `play` with its correction for a
  round that crosses midnight, the header decision of `init_log` and the main
  loop that appends one `timestamp,seconds` line per round to `log.txt`.

The bus read is replaced by a given seven-byte register snapshot
(`Registers.Snapshot`, bytes as `bv8`). Each press of the button is replaced by
the snapshot read at that moment. The log file is replaced by a `LogFile` object
holding whether the directory lists the file and its text.

Modules:

- `Registers`: bytes, snapshots, register offsets and the BCD-byte predicate.
- `Format`: Python's `str(n)` and `{:0Nd}` rendering, plus the
  `YYYY-MM-DD HH:MM:SS` layout both scripts print.
- `Clock`: `h*3600 + m*60 + s` and its inverse on one day.
- `Rtc`: the library.
- `Game`: the game script. Its pure parts are functions. `play` is a method
  that reassigns `t1`. The log is a class whose methods append to its
  contents. The main loop is a method with a loop invariant.
- `Agreement`: the two decoders compared on the same snapshot.

The model follows the code as written, including where it does less than
one might expect:

- The game's `get` masks neither the clock-halt bit 7 of the seconds nor bit 7
  of the minutes, hours and date registers, nor bit 6 of the date. It reads the
  hours register as a 24-hour BCD byte even in 12-hour mode. `Agreement` proves
  the exact amounts by which its fields then exceed the library's: 80 for
  bit 7, 40 for bit 6, and an hour of at least 40 in 12-hour mode.
- The library turns every 12-hour register into a 24-hour hour. In 24-hour mode the library decodes
  `hour_raw & 0x3F` without a range check, up to 45.
- `set_datetime` writes the hours register in 24-hour mode exactly when `hour & 0x3F` is below 40, because the BCD form of 40 to 63
  sets bit 6. The payload is one Python `bytes(...)` call, so it fails
  (`ValueError`) exactly when `(year - 2000) & 0xFF` is 160 or more, the only
  element that can exceed 255.
- Because the game reads an hour of 40 or more on a clock in 12-hour mode,
  `sec_midnight` can exceed one day, and a round can then be logged with a
  negative duration: from 11 PM to 1 AM it logs -21600 seconds.
- The line a round logs carries the timestamp of a third register read, taken
  after the stop press, not the stop time itself.
- `open(LOG, "a")` creates the file before `init_log` asks whether the
  directory lists it. The "file missing" half of the header condition is
  therefore never taken in the program. It is modelled all the same, and the
  header decision comes down to "the file is empty".

## Model

| member | source | states |
|---|---|---|
| Rtc.BcdToInt | rtc_ds3231.py:15-17 | the decoded value of any byte fits a byte (at most 165), and is at most 99 for a BCD byte |
| Rtc.IntToBcd | rtc_ds3231.py:19-21 | for 0..99 the encoding is a BCD byte (at most 0x99) that decodes back to the value; on any byte it is at most 0x195 |
| Rtc.BcdByteRoundTrip | rtc_ds3231.py:15-21 | a BCD byte decodes to 0..99 and re-encodes to itself |
| Rtc.BcdBytesAreEncodings | rtc_ds3231.py:15-21 | a byte is BCD if and only if it decodes to 0..99 and re-encodes to itself |
| Rtc.DecodeHour | rtc_ds3231.py:39-50 | in 12-hour mode the hour is 0..23, is 12 or more exactly when the PM bit is set, and sits on the register's dial position modulo 12; in 24-hour mode it is at most 45 |
| Rtc.DecodeHour24 | rtc_ds3231.py:49-50 | in 24-hour mode a BCD hour 0..23 decodes to itself |
| Rtc.Hour12Injective | rtc_ds3231.py:42-48 | two well-formed 12-hour registers with the same decoded hour agree on bits 0 to 6 |
| Rtc.Hour12Onto | rtc_ds3231.py:42-48 | every hour 0..23 is decoded from some well-formed 12-hour register |
| Rtc.TwelveAmIsMidnight | rtc_ds3231.py:42-48 | 12 AM (0x52) decodes to 0 |
| Rtc.TwelvePmIsNoon | rtc_ds3231.py:42-48 | 12 PM (0x72) decodes to 12 |
| Rtc.NinePmIsTwentyOne | rtc_ds3231.py:42-48 | 9 PM (0x69) decodes to 21 |
| Rtc.NineAmIsNine | rtc_ds3231.py:42-48 | 9 AM (0x49) decodes to 9 |
| Rtc.TwentyFourHourSeventeen | rtc_ds3231.py:49-50 | 24-hour registers 0x17 and 0x00 decode to 17 and 0 |
| Rtc.ReadDatetime | rtc_ds3231.py:33-58 | the year is 2000..2165, month, date and weekday are within their masks' decoded ranges, minutes and seconds at most 85, and the hour is 0..23 whenever the register is in 12-hour mode |
| Rtc.ControlBitsIgnored | rtc_ds3231.py:37-55 | snapshots that agree on the bits the decoder keeps decode alike; the clock-halt bit 7 of the seconds and bit 7 of minutes and hours do not count |
| Rtc.HourBit7Ignored | rtc_ds3231.py:39-50 | bit 7 of the hours register never changes the decoded hour |
| Rtc.DatetimeString | rtc_ds3231.py:60-66 | the formatted date and time is 19 characters for every snapshot |
| Rtc.DatetimeStringFields | rtc_ds3231.py:60-66 | each field of the decoded date and time is read back from its digit columns |
| Rtc.SecondsSinceMidnight | rtc_ds3231.py:68-71 | bounded for every snapshot; for a valid time of day it is below 86400 and hour, minute and second are recovered by division |
| Rtc.FieldRoundTrip | rtc_ds3231.py:76-81 | a field below the bound of its mask is encoded in one byte and decoded back unchanged |
| Rtc.HourRoundTrip | rtc_ds3231.py:78 | an hour 0..23 is written in 24-hour mode and decoded back unchanged |
| Rtc.YearRoundTrip | rtc_ds3231.py:82 | a year 2000..2099 is written in one byte and decoded back unchanged |
| Rtc.EncodingWidth | rtc_ds3231.py:75-81 | an element masked with one of the field masks 0x7F, 0x3F, 0x07 or 0x1F always fits a byte |
| Rtc.YearElementWidth | rtc_ds3231.py:82-83 | the year element, masked with 0xFF, fits a byte exactly when `(year - 2000) & 0xFF` is below 160 |
| Rtc.HourElementMode | rtc_ds3231.py:78 | the hour element selects 12-hour mode exactly when `hour & 0x3F` is 40 or more |
| Rtc.SetDatetimePayload | rtc_ds3231.py:73-83 | `set_datetime` fails with a value error exactly when `(year - 2000) & 0xFF` is 160 or more, and otherwise builds the seven masked BCD bytes |
| Rtc.PayloadHourMode | rtc_ds3231.py:75-83 | the written hour register is in 12-hour mode exactly when `hour & 0x3F` is 40 or more |
| Rtc.PayloadRoundTrip | rtc_ds3231.py:73-83 | for valid calendar fields the seven payload bytes are built, are in 24-hour mode, and `read_datetime` decodes them to the same fields |
| Format.Decimal | main.py:106 | `str(n)` of n >= 0 is a non-empty digit string denoting n, starting with 0 only for 0 |
| Format.IntString | main.py:106 | `str(n)` is all digits exactly when n >= 0 and denotes n; for a negative n it is a minus sign followed by the digits of -n; `str(0)` is exactly "0", and no other result has a leading zero |
| Format.DecimalLength | rtc_ds3231.py:63 | n has at most k digits exactly when n < 10^k |
| Format.Padded | rtc_ds3231.py:63 | the zero-padded rendering is a digit string denoting n, as long as the width or the digits of n, whichever is longer |
| Format.PaddedLength | rtc_ds3231.py:63 | the padded rendering has exactly the width exactly when n fits it |
| Format.Timestamp | rtc_ds3231.py:63-66 | the `{:04d}-{:02d}-{:02d} {:02d}:{:02d}:{:02d}` layout is at least 19 characters long |
| Format.TimestampLength | rtc_ds3231.py:63-66 | the timestamp is at least 19 characters, and exactly 19 exactly when every field fits its width |
| Format.TimestampFields | rtc_ds3231.py:63-66 | for fitting fields, the separators sit at positions 4, 7, 10, 13 and 16 and each field is read back from its columns |
| Format.TimestampInjective | rtc_ds3231.py:63-66 | distinct fitting field tuples give distinct timestamps |
| Format.TimestampIsPlain | main.py:41 | a timestamp contains no comma and no line break |
| Format.IntStringIsPlain | main.py:106 | `str(n)` contains no comma and no line break |
| Clock.DaySeconds | rtc_ds3231.py:71 | a valid time of day gives a second below 86400 |
| Clock.DaySecondsInverse | rtc_ds3231.py:71 | hour, minute and second of a valid time are recovered from the second of the day |
| Clock.DaySecondsOnto | main.py:46 | every second of the day is the second of a valid time, namely the one its quotient and remainders give |
| Clock.MidnightIsZero | main.py:46 | 00:00:00 is second 0 |
| Clock.LastSecondOfDay | main.py:46 | 23:59:59 is second 86399 |
| Game.Bcd | main.py:15-23 | decoding yields at most 165, and at most 99 for a BCD byte; encoding is at most 0x195, and for 0..99 is a BCD byte at most 0x99 |
| Game.BcdRoundTrip | main.py:23 | decoding the encoding of 0..99 gives the value back, as a bit-vector and as a number |
| Game.BcdReencode | main.py:23 | re-encoding a decoded byte gives it back exactly when its low nibble is a decimal digit |
| Game.BcdBelowHundred | main.py:23 | a register decodes to at most two digits exactly when it is below 0x9A |
| Game.Get | main.py:25-36 | year 2000..2165, month at most 25, the unmasked day, hour, minute and second at most 165 |
| Game.GetReadsEncoding | main.py:33-35 | registers holding the BCD encodings of a date and time are read back as that date and time, whatever the weekday register holds |
| Game.MonthRoundTrip | main.py:35 | the encoding of a month 0..19 survives the month mask |
| Game.Now | main.py:38-41 | the timestamp is at least 19 characters |
| Game.NowLength | main.py:38-41 | the timestamp is exactly 19 characters exactly when the seconds, minutes, hours and date registers are each below 0x9A |
| Game.NowFields | main.py:38-41 | then each field of the reading is read back from its digit columns |
| Game.NowIsPlain | main.py:41 | the timestamp contains no comma and no line break |
| Game.SecMidnight | main.py:43-46 | bounded by 165 hours, minutes and seconds |
| Game.SecMidnightInverse | main.py:43-46 | for a valid time of day it is below 86400 and the fields are recovered by division |
| Game.Elapsed | main.py:84-86 | whatever the start and stop values, the clock reads the stop value the reported number of seconds after the start value (modulo 86400) |
| Game.ElapsedOnClock | main.py:84-86 | for two seconds of the day the reported duration is below one day and leads from start to stop modulo 86400 |
| Game.ElapsedUnique | main.py:84-86 | it is the only duration below one day that does so |
| Game.ElapsedNegative | main.py:84-86 | the duration is negative exactly when the stop lies more than a day before the start |
| Game.ElapsedAcrossMidnight | main.py:84-86 | start 86300 and stop 50 give 150 |
| Game.MidnightWrapExample | main.py:84-86 | a round from 23:59:50 to 00:00:05 lasts 15 seconds |
| Game.TwelveHourNegativeDuration | main.py:84-86 | on a clock in 12-hour mode, a round from 11 PM (0x71) to 1 AM (0x41) is logged as -21600 seconds |
| Game.Play | main.py:74-86 | the round returns the timestamp of the third reading and the elapsed time of the start and stop readings, one day added to a stop earlier than the start |
| Game.Line | main.py:106 | the line starts with the timestamp, has a comma right after it and ends with a line break |
| Game.LineFields | main.py:106 | a line splits back at its first comma into the timestamp and the duration's digits, and its only line break ends it |
| Game.LineInjective | main.py:106 | different timestamp and duration pairs give different lines |
| Game.LineIsOneLine | main.py:106 | a line holds exactly one line break |
| Game.RoundLine | main.py:102-106 | the line of a round is one line and starts with the timestamp of its third reading |
| Game.Journal | main.py:101-106 | the journal of n rounds has n line breaks |
| Game.JournalStep | main.py:101-106 | one more round appends its line to the journal, and to any log holding a prefix followed by the journal |
| Game.JournalAppend | main.py:101-106 | the journal of the rounds followed by one more is the journal so far followed by that round's line |
| Game.JournalPrefix | main.py:101-106 | the journal of the first rounds stays at the start of the journal of all rounds |
| Game.InitLogText | main.py:67-72 | the old contents are kept as a prefix; the header is appended exactly when the file is missing or empty, and nothing is added otherwise |
| Game.InitLogIdempotent | main.py:67-72 | a second `init_log` adds nothing, so the header is never written twice |
| Game.HeaderIsOneLine | main.py:72 | the header is one line |
| Game.LogFile.Open | main.py:96 | opening for appending creates a missing file and keeps the contents |
| Game.LogFile.Write | main.py:106 | a write appends its text to the contents |
| Game.LogFile.InitLog | main.py:67-72 | the new contents are the header decision applied to the old presence and contents |
| Game.Session | main.py:96-108 | after the rounds, the log holds what `init_log` would make of its old presence and contents (the old contents, or the header when it was empty or missing), followed by one line per round in order |
| Game.FreshLogLines | main.py:96-108 | whether the file is missing or present, a session on an empty log leaves one more line than rounds |
| Game.RoundLineExample | main.py:102-106 | a round from 10:00:05 to 10:00:20 on 2024-03-01 is logged as `2024-03-01 10:00:20,15` |
| Game.ExampleTimestamp | main.py:38-41 | the registers of 2024-03-01 10:00:20 print as that timestamp |
| Game.ExampleReading | main.py:33-36 | the example registers are read as (2024, 3, 1, 10, 0, 20) |
| Game.ExamplePadding | main.py:41 | the padded renderings of the example's fields |
| Game.ExampleYearPadding | main.py:41 | 2024 padded to four digits is "2024" |
| Game.ExampleTwoDigitPadding | main.py:41 | 10 and 20 padded to two digits are "10" and "20" |
| Game.ExampleLine | main.py:106 | the example's timestamp and duration give the line `2024-03-01 10:00:20,15` |
| Game.ExampleDuration | main.py:84-86 | the example round lasts 15 seconds |
| Agreement.BcdAgrees | main.py:23 | the game's `_bcd` coincides with the library's two conversions, in both directions, and the decoded numbers are equal |
| Agreement.Bit7Counted | main.py:33 | an unmasked byte decodes to 80 more than with bit 7 masked when that bit is set |
| Agreement.Bits67Counted | main.py:33-35 | an unmasked byte decodes to 40 more for bit 6 and 80 more for bit 7 than with both masked |
| Agreement.SecondsAndMinutesDiffer | main.py:33 | the game's seconds and minutes exceed the library's by 80 exactly when bit 7 is set |
| Agreement.DayDiffers | main.py:35 | the game's day exceeds the library's by 40 for bit 6 and 80 for bit 7 of the date register |
| Agreement.Hour24Differs | main.py:33 | in 24-hour mode the game's hour exceeds the library's by 80 exactly when bit 7 is set |
| Agreement.TwelveHourMisread | main.py:33 | in 12-hour mode the game's hour is at least 40 while the library's is 0..23 |
| Agreement.YearAndMonthAgree | main.py:35 | year and month are always decoded alike |
| Agreement.FieldsAgree | main.py:25-36 | year and month always agree; seconds, minutes, date and hour each agree exactly when that register's control bits are clear |
| Agreement.ReadingsAgree | main.py:25-36 | the two decoders agree field by field exactly when bit 7 of seconds and minutes and bits 6 and 7 of hours and date are clear |
| Agreement.TimestampsAgree | main.py:38-41 | then `now` and `datetime_string` print the same string |
| Agreement.SecondsOfDayAgree | main.py:43-46 | then `sec_midnight` and `seconds_since_midnight` return the same number |

## Left out

- `i2c_scan.py` (bus enumeration and printing) and `plot_histogram.py` (CSV reading, floating point and plotting): hardware I/O and a foreign library.
- `readfrom_mem` (rtc_ds3231.py:29-31, main.py:29): replaced by the snapshot the decoders take as a parameter.
- `writeto_mem` and `time.sleep_ms` in `set_datetime` (rtc_ds3231.py:84-85): the model returns the payload instead of writing it.
- The constructors of both DS3231 classes, the bus address and the module-level hardware setup (main.py:50-56): they only store the bus handle.
- `wait_press` (main.py:58-65): button polling and timing. Each press is represented by the snapshot read after it.
- `os.listdir` and `os.stat` (main.py:70): replaced by `LogFile.present` and the length of `LogFile.content`.
- `f.flush()`, closing the file at the end of `with`, and the console prints (main.py:90-94, 104, 108, 114): no effect on the file's contents.
- The `while True` loop and its `KeyboardInterrupt` exit (main.py:100-114): modelled as the finite sequence of rounds completed before the interrupt.
- Rtc.IntToBcd: modelled on byte arguments only. Every call masks its argument with at most 0xFF first, so no other argument reaches it.
- Game.Bcd: the forward direction is modelled on byte arguments only. The game never calls it forward.
- Rtc.SetDatetimePayload: each argument is represented by its low 16 bits in two's complement. Each one is masked with at most 0xFF before use, so the payload depends on no other bit.
- Rtc.DatetimeString and Game.Now: characters are Dafny `char`s, with no text encoding.
- The default `wday=1` of `set_datetime` (rtc_ds3231.py:73): `Rtc.SetDatetimePayload` takes the weekday as an explicit argument, since Dafny functions have no default parameters; a caller that omits it is the call with `wday` 1.
- The failure of `f.write` (main.py:106): an `OSError` there ends the program, but `Game.LogFile.Write` always succeeds. The model has no file-system errors.
