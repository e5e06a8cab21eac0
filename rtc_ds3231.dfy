/** The DS3231 driver library: BCD conversion, decoding of the seven time
    registers into calendar fields, and the payload written when the clock is set. */
module Rtc {
  import opened Registers
  import Format
  import Clock

  /** `_bcd_to_int`: high nibble times ten plus low nibble. The value of any
      byte fits in a byte again (at most 165). */
  function BcdToInt(b: byte): (v: byte)
    ensures v <= 165
    ensures IsBcdByte(b) ==> v <= 99
  {
    (b >> 4) * 10 + (b & 0x0F)
  }

  /** `_int_to_bcd`: `((v // 10) << 4) | (v % 10)`, on the arguments its
      callers pass (every call masks with at most 0xFF). The result can need
      more than eight bits, at most 0x195. For 0..99 it is a BCD byte that decodes back to v. */
  function IntToBcd(v: byte): (b: bv16)
    ensures b <= 0x195
    ensures v <= 99 ==> b <= 0x99 && IsBcdByte(b as byte) && BcdToInt(b as byte) == v
  {
    ((v / 10) as bv16 << 4) | (v % 10) as bv16
  }

  /** The other round trip: a BCD byte is re-encoded unchanged. */
  lemma BcdByteRoundTrip(b: byte)
    requires IsBcdByte(b)
    ensures BcdToInt(b) <= 99 && IntToBcd(BcdToInt(b)) == b as bv16
  {
  }

  /** The BCD bytes are exactly the encodings of 0..99. */
  lemma BcdBytesAreEncodings(b: byte)
    ensures IsBcdByte(b) <==> BcdToInt(b) <= 99 && IntToBcd(BcdToInt(b)) == b as bv16
  {
  }

  /** The decoded contents of the time registers (`read_datetime`'s dictionary). */
  datatype DateTime = DateTime(year: nat, month: nat, mday: nat, wday: nat,
                               hour: nat, minute: nat, second: nat)

  /** Bit 6 of the hours register (`hour_raw & 0x40`) selects 12-hour mode. */
  predicate Is12HourMode(raw: byte)
  {
    raw & 0x40 != 0
  }

  /** Bit 5 of the hours register (`(hour_raw & 0x20) >> 5`) is PM in 12-hour mode. */
  predicate IsPm(raw: byte)
  {
    (raw & 0x20) >> 5 != 0
  }

  /** The 12-hour clock value, `_bcd_to_int(hour_raw & 0x1F)`. */
  function Hour12(raw: byte): byte
  {
    BcdToInt(raw & 0x1F)
  }

  /** A well-formed 12-hour register: 12-hour mode with a BCD hour in 1..12. */
  predicate IsValid12Hour(raw: byte)
  {
    Is12HourMode(raw) && IsBcdByte(raw & 0x1F) && 1 <= Hour12(raw) <= 12
  }

  /** The hour branch of `read_datetime`. In 12-hour mode the result is a
      24-hour hour, in the afternoon exactly when the PM bit is set, and on the
      same 12-hour dial position as the register's hour. */
  function DecodeHour(raw: byte): (h: byte)
    ensures Is12HourMode(raw) ==> h <= 23 && (h >= 12 <==> IsPm(raw)) && h % 12 == Hour12(raw) % 12
    ensures !Is12HourMode(raw) ==> h <= 45
  {
    if Is12HourMode(raw) then
      var hour := Hour12(raw);
      if IsPm(raw) then hour % 12 + 12 else hour % 12
    else
      BcdToInt(raw & 0x3F)
  }

  /** In 24-hour mode a BCD hour register holding 0..23 decodes to that hour. */
  lemma DecodeHour24(raw: byte)
    requires !Is12HourMode(raw) && IsBcdByte(raw & 0x3F) && BcdToInt(raw & 0x3F) <= 23
    ensures DecodeHour(raw) <= 23 && IntToBcd(DecodeHour(raw)) == (raw & 0x3F) as bv16
  {
  }

  /** Two well-formed 12-hour registers that decode to the same hour agree on
      every bit the decoder reads (bits 0 to 6). */
  lemma Hour12Injective(r1: byte, r2: byte)
    requires IsValid12Hour(r1) && IsValid12Hour(r2)
    requires DecodeHour(r1) == DecodeHour(r2)
    ensures r1 & 0x7F == r2 & 0x7F
  {
  }

  /** Every hour of the day has a well-formed 12-hour encoding. */
  lemma Hour12Onto(h: byte)
    requires h <= 23
    ensures exists raw: byte :: IsValid12Hour(raw) && DecodeHour(raw) == h
  {
    var dial: byte := if h % 12 == 0 then 12 else h % 12;
    var raw: byte := 0x40 | (if h >= 12 then 0x20 else 0) | IntToBcd(dial) as byte;
    assert IsValid12Hour(raw) && DecodeHour(raw) == h;
  }

  lemma TwelveAmIsMidnight()
    ensures DecodeHour(0x40 + 0x12) == 0
  {
  }

  lemma TwelvePmIsNoon()
    ensures DecodeHour(0x40 + 0x20 + 0x12) == 12
  {
  }

  lemma NinePmIsTwentyOne()
    ensures DecodeHour(0x40 + 0x20 + 0x09) == 21
  {
  }

  lemma NineAmIsNine()
    ensures DecodeHour(0x40 + 0x09) == 9
  {
  }

  lemma TwentyFourHourSeventeen()
    ensures DecodeHour(0x17) == 17 && DecodeHour(0x00) == 0
  {
  }

  /** `read_datetime` on a given register snapshot: seconds and minutes drop
      the clock-halt bit 7, weekday, date and month keep their low 3, 6 and 5
      bits, and the year register counts from 2000. Every field fits two
      digits, and the hour is a 24-hour hour whenever the register is in
      12-hour mode. */
  function ReadDatetime(b: Snapshot): (dt: DateTime)
    ensures 2000 <= dt.year <= 2165 && dt.month <= 25 && dt.mday <= 45 && dt.wday <= 7
    ensures dt.hour <= 45 && dt.minute <= 85 && dt.second <= 85
    ensures Is12HourMode(b[HOURS]) ==> dt.hour <= 23
  {
    DateTime(year := 2000 + BcdToInt(b[YEAR]) as int,
             month := BcdToInt(b[MONTH] & 0x1F) as int,
             mday := BcdToInt(b[DATE] & 0x3F) as int,
             wday := BcdToInt(b[WEEKDAY] & 0x07) as int,
             hour := DecodeHour(b[HOURS]) as int,
             minute := BcdToInt(b[MINUTES] & 0x7F) as int,
             second := BcdToInt(b[SECONDS] & 0x7F) as int)
  }

  /** The decoded value depends only on the bits the decoder keeps: in
      particular the clock-halt bit 7 of the seconds register and bit 7 of the
      minutes register make no difference. */
  lemma ControlBitsIgnored(b: Snapshot, c: Snapshot)
    requires b[SECONDS] & 0x7F == c[SECONDS] & 0x7F && b[MINUTES] & 0x7F == c[MINUTES] & 0x7F
    requires b[HOURS] & 0x7F == c[HOURS] & 0x7F && b[WEEKDAY] & 0x07 == c[WEEKDAY] & 0x07
    requires b[DATE] & 0x3F == c[DATE] & 0x3F && b[MONTH] & 0x1F == c[MONTH] & 0x1F
    requires b[YEAR] == c[YEAR]
    ensures ReadDatetime(b) == ReadDatetime(c)
  {
    HourBit7Ignored(b[HOURS], c[HOURS]);
    var x, y := ReadDatetime(b), ReadDatetime(c);
    assert x.hour == y.hour;
  }

  /** The hour decoder never reads bit 7 of the hours register. */
  lemma HourBit7Ignored(r1: byte, r2: byte)
    requires r1 & 0x7F == r2 & 0x7F
    ensures DecodeHour(r1) == DecodeHour(r2)
  {
    assert r1 & 0x3F == r2 & 0x3F && r1 & 0x1F == r2 & 0x1F;
    assert Is12HourMode(r1) == Is12HourMode(r2) && IsPm(r1) == IsPm(r2);
  }

  /** `datetime_string`: `YYYY-MM-DD HH:MM:SS`, 19 characters for every snapshot. */
  function DatetimeString(b: Snapshot): (s: string)
    ensures |s| == 19
  {
    var dt := ReadDatetime(b);
    Format.TimestampLength(dt.year, dt.month, dt.mday, dt.hour, dt.minute, dt.second);
    Format.Timestamp(dt.year, dt.month, dt.mday, dt.hour, dt.minute, dt.second)
  }

  /** The date and time can be read back from the string's digit columns. */
  lemma DatetimeStringFields(b: Snapshot)
    ensures var s, dt := DatetimeString(b), ReadDatetime(b);
      Format.AllDigits(s[0..4]) && Format.DigitsValue(s[0..4]) == dt.year &&
      Format.AllDigits(s[5..7]) && Format.DigitsValue(s[5..7]) == dt.month &&
      Format.AllDigits(s[8..10]) && Format.DigitsValue(s[8..10]) == dt.mday &&
      Format.AllDigits(s[11..13]) && Format.DigitsValue(s[11..13]) == dt.hour &&
      Format.AllDigits(s[14..16]) && Format.DigitsValue(s[14..16]) == dt.minute &&
      Format.AllDigits(s[17..19]) && Format.DigitsValue(s[17..19]) == dt.second
  {
    var dt := ReadDatetime(b);
    Format.TimestampFields(dt.year, dt.month, dt.mday, dt.hour, dt.minute, dt.second);
  }

  /** `seconds_since_midnight`. For a snapshot holding a valid time of day the
      result is a second of the day from which the hour, minute and second
      can be read back. */
  function SecondsSinceMidnight(b: Snapshot): (t: nat)
    ensures t <= 45 * 3600 + 85 * 60 + 85
    ensures var dt := ReadDatetime(b);
      Clock.ValidTime(dt.hour, dt.minute, dt.second) ==>
        t < Clock.SECONDS_PER_DAY && t / 3600 == dt.hour && t % 3600 / 60 == dt.minute && t % 60 == dt.second
  {
    var dt := ReadDatetime(b);
    var t := Clock.DaySeconds(dt.hour, dt.minute, dt.second);
    if Clock.ValidTime(dt.hour, dt.minute, dt.second) then
      Clock.DaySecondsInverse(dt.hour, dt.minute, dt.second);
      t
    else t
  }

  /** What `set_datetime` hands to the bus, or the `ValueError` that `bytes(...)`
      raises when an element exceeds 255. */
  datatype Payload = Payload(bytes: Snapshot) | ByteOutOfRange

  /** An argument of `set_datetime`, by its low 16 bits (two's complement for
      a negative Python int). Each argument is masked with at most 0xFF before
      it is encoded, so the payload depends on no other bits. */
  type Arg = bv16

  /** Calendar fields a DS3231 can hold. */
  predicate ValidFields(year: Arg, month: Arg, mday: Arg, hour: Arg, minute: Arg, second: Arg, wday: Arg)
  {
    2000 <= year <= 2099 && 1 <= month <= 12 && 1 <= mday <= 31 && 1 <= wday <= 7 &&
    hour <= 23 && minute <= 59 && second <= 59
  }

  /** `_int_to_bcd(x & mask)` for a mask of at most eight bits. */
  function MaskedBcd(x: Arg, mask: byte): bv16
  {
    IntToBcd((x & 0xFF) as byte & mask)
  }

  /** The masks `set_datetime` applies: seconds and minutes 0x7F, hours and
      date 0x3F, weekday 0x07, month 0x1F. */
  predicate IsFieldMask(mask: byte)
  {
    mask == 0x07 || mask == 0x1F || mask == 0x3F || mask == 0x7F
  }

  /** The bound below which a field survives its mask in BCD form. */
  function FieldBound(mask: byte): Arg
    requires IsFieldMask(mask)
  {
    if mask == 0x07 then 8 else if mask == 0x1F then 20 else if mask == 0x3F then 40 else 80
  }

  /** Field by field: a value below the field's bound is read back unchanged. */
  lemma FieldRoundTrip(x: Arg, mask: byte)
    requires IsFieldMask(mask) && x < FieldBound(mask)
    ensures MaskedBcd(x, mask) < 0x100
    ensures BcdToInt(MaskedBcd(x, mask) as byte & mask) as int == x as int
  {
    var v := BcdToInt(MaskedBcd(x, mask) as byte & mask);
    assert v as bv16 == x;
  }

  /** A valid hour is written in 24-hour mode and read back unchanged. */
  lemma HourRoundTrip(hour: Arg)
    requires hour <= 23
    ensures MaskedBcd(hour, 0x3F) < 0x100
    ensures !Is12HourMode(MaskedBcd(hour, 0x3F) as byte)
    ensures DecodeHour(MaskedBcd(hour, 0x3F) as byte) as int == hour as int
  {
    var v := DecodeHour(MaskedBcd(hour, 0x3F) as byte);
    assert v as bv16 == hour;
  }

  /** The year offset is read back unchanged for the years 2000 to 2099. */
  lemma YearRoundTrip(year: Arg)
    requires 2000 <= year <= 2099
    ensures MaskedBcd(year - 2000, 0xFF) < 0x100
    ensures 2000 + BcdToInt(MaskedBcd(year - 2000, 0xFF) as byte) as int == year as int
  {
    var v := BcdToInt(MaskedBcd(year - 2000, 0xFF) as byte);
    assert v as bv16 == year - 2000;
    assert v as int == (year - 2000) as int;
  }

  /** `_int_to_bcd` of a value masked with a field mask fits in eight bits. */
  lemma EncodingWidth(x: Arg, mask: byte)
    requires IsFieldMask(mask)
    ensures MaskedBcd(x, mask) < 0x100
  {
  }

  /** The year element is masked with 0xFF, and its `_int_to_bcd` needs more
      than eight bits exactly from 160 on. */
  lemma YearElementWidth(x: Arg)
    ensures MaskedBcd(x, 0xFF) < 0x100 <==> x & 0xFF < 160
  {
  }

  /** The hour element selects 12-hour mode when `hour & 0x3F` is 40 or more. */
  lemma HourElementMode(hour: Arg)
    ensures Is12HourMode(MaskedBcd(hour, 0x3F) as byte) <==> hour & 0x3F >= 40
  {
  }

  /** The payload built by `set_datetime` (whose `wday` defaults to 1): each
      argument masked and BCD encoded, in register order, or the failure of
      `bytes(...)` when an element does not fit a byte. Only the year element
      can exceed a byte, so `set_datetime` fails exactly when
      `(year - 2000) & 0xFF` is 160 or more. */
  function SetDatetimePayload(year: Arg, month: Arg, mday: Arg, hour: Arg, minute: Arg,
                              second: Arg, wday: Arg): (p: Payload)
    ensures p.ByteOutOfRange? <==> (year - 2000) & 0xFF >= 160
  {
    EncodingWidth(second, 0x7F);
    EncodingWidth(minute, 0x7F);
    EncodingWidth(hour, 0x3F);
    EncodingWidth(wday, 0x07);
    EncodingWidth(mday, 0x3F);
    EncodingWidth(month, 0x1F);
    YearElementWidth(year - 2000);
    var sec, min, hr := MaskedBcd(second, 0x7F), MaskedBcd(minute, 0x7F), MaskedBcd(hour, 0x3F);
    var wd, md, mon := MaskedBcd(wday, 0x07), MaskedBcd(mday, 0x3F), MaskedBcd(month, 0x1F);
    var yr := MaskedBcd(year - 2000, 0xFF);
    if sec < 0x100 && min < 0x100 && hr < 0x100 && wd < 0x100 && md < 0x100 && mon < 0x100 && yr < 0x100 then
      Payload([sec as byte, min as byte, hr as byte, wd as byte, md as byte, mon as byte, yr as byte])
    else ByteOutOfRange
  }

  /** The hour register of the payload is in 24-hour mode unless `hour & 0x3F`
      is 40 or more. */
  lemma PayloadHourMode(year: Arg, month: Arg, mday: Arg, hour: Arg, minute: Arg, second: Arg, wday: Arg)
    ensures var p := SetDatetimePayload(year, month, mday, hour, minute, second, wday);
      p.Payload? ==> (Is12HourMode(p.bytes[HOURS]) <==> hour & 0x3F >= 40)
  {
    HourElementMode(hour);
  }

  /** Valid fields are written and read back by `read_datetime` unchanged. */
  lemma PayloadRoundTrip(year: Arg, month: Arg, mday: Arg, hour: Arg, minute: Arg, second: Arg, wday: Arg)
    requires ValidFields(year, month, mday, hour, minute, second, wday)
    ensures var p := SetDatetimePayload(year, month, mday, hour, minute, second, wday);
      p.Payload? && !Is12HourMode(p.bytes[HOURS]) &&
      ReadDatetime(p.bytes) == DateTime(year as int, month as int, mday as int, wday as int,
                                       hour as int, minute as int, second as int)
  {
    FieldRoundTrip(second, 0x7F);
    FieldRoundTrip(minute, 0x7F);
    HourRoundTrip(hour);
    FieldRoundTrip(wday, 0x07);
    FieldRoundTrip(mday, 0x3F);
    FieldRoundTrip(month, 0x1F);
    YearRoundTrip(year);
  }
}
