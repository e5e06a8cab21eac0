/** How the game script's own register decoding relates to the driver
    library's: the same BCD conversion, the same results on registers whose
    control bits are clear, and the exact amounts by which the game's
    unmasked reading differs otherwise. */
module Agreement {
  import opened Registers
  import Rtc
  import Game

  /** Both scripts convert BCD the same way in both directions. */
  lemma BcdAgrees(x: byte)
    ensures Game.Bcd(x, true) == Rtc.BcdToInt(x) as bv16
    ensures Game.Bcd(x, false) == Rtc.IntToBcd(x)
    ensures Game.Bcd(x, true) as int == Rtc.BcdToInt(x) as int
  {
    var v := Rtc.BcdToInt(x);
    assert (v as bv16) as int == v as int;
  }

  /** A byte read without masking bit 7 decodes to 80 more when that bit is set. */
  lemma Bit7Counted(x: byte)
    ensures Game.Bcd(x, true) as int == Rtc.BcdToInt(x & 0x7F) as int + (if x & 0x80 != 0 then 80 else 0)
  {
    var g, r := Game.Bcd(x, true), Rtc.BcdToInt(x & 0x7F);
    var extra: bv16 := if x & 0x80 != 0 then 80 else 0;
    assert g == r as bv16 + extra;
    assert (r as bv16) as int == r as int;
    assert g as int == (r as bv16) as int + extra as int;
  }

  /** A byte read without masking bits 6 and 7 decodes to 40 more for bit 6
      and 80 more for bit 7. */
  lemma Bits67Counted(x: byte)
    ensures Game.Bcd(x, true) as int ==
      Rtc.BcdToInt(x & 0x3F) as int + (if x & 0x40 != 0 then 40 else 0) + (if x & 0x80 != 0 then 80 else 0)
  {
    var g, r := Game.Bcd(x, true), Rtc.BcdToInt(x & 0x3F);
    var extra: bv16 := (if x & 0x40 != 0 then 40 else 0) + (if x & 0x80 != 0 then 80 else 0);
    assert g == r as bv16 + extra;
    assert (r as bv16) as int == r as int;
    assert g as int == (r as bv16) as int + extra as int;
  }

  /** The game's seconds and minutes exceed the library's by 80 exactly when
      bit 7 of the register is set. */
  lemma SecondsAndMinutesDiffer(d: Snapshot)
    ensures Game.Get(d).second == Rtc.ReadDatetime(d).second + (if d[SECONDS] & 0x80 != 0 then 80 else 0)
    ensures Game.Get(d).minute == Rtc.ReadDatetime(d).minute + (if d[MINUTES] & 0x80 != 0 then 80 else 0)
  {
    Bit7Counted(d[SECONDS]);
    Bit7Counted(d[MINUTES]);
  }

  /** The game's day of the month exceeds the library's by 40 for bit 6 and
      by 80 for bit 7 of the date register. */
  lemma DayDiffers(d: Snapshot)
    ensures Game.Get(d).day ==
      Rtc.ReadDatetime(d).mday + (if d[DATE] & 0x40 != 0 then 40 else 0) + (if d[DATE] & 0x80 != 0 then 80 else 0)
  {
    Bits67Counted(d[DATE]);
  }

  /** In 24-hour mode the game's hour exceeds the library's by 80 exactly
      when bit 7 of the hours register is set. */
  lemma Hour24Differs(d: Snapshot)
    requires !Rtc.Is12HourMode(d[HOURS])
    ensures Game.Get(d).hour == Rtc.ReadDatetime(d).hour + (if d[HOURS] & 0x80 != 0 then 80 else 0)
  {
    Bits67Counted(d[HOURS]);
  }

  /** In 12-hour mode the game reads the mode bit as 40 hours: its hour is
      never an hour of the day, while the library's is. */
  lemma TwelveHourMisread(d: Snapshot)
    requires Rtc.Is12HourMode(d[HOURS])
    ensures Game.Get(d).hour >= 40 && Rtc.ReadDatetime(d).hour <= 23
  {
    Bits67Counted(d[HOURS]);
  }

  /** The year and the month are always read alike. */
  lemma YearAndMonthAgree(d: Snapshot)
    ensures Game.Get(d).year == Rtc.ReadDatetime(d).year && Game.Get(d).month == Rtc.ReadDatetime(d).month
  {
    BcdAgrees(d[YEAR]);
    BcdAgrees(d[MONTH] & 0x1F);
  }

  /** The registers the game does not mask, with their control bits clear. */
  predicate ControlBitsClear(d: Snapshot)
  {
    d[SECONDS] < 0x80 && d[MINUTES] < 0x80 && d[HOURS] < 0x40 && d[DATE] < 0x40
  }

  /** With those bits clear the two readings agree field by field, and only
      then: any of those bits set changes one of the game's fields. */
  lemma ReadingsAgree(d: Snapshot)
    ensures ControlBitsClear(d) <==>
      var r, dt := Game.Get(d), Rtc.ReadDatetime(d);
      r == Game.Reading(dt.year, dt.month, dt.mday, dt.hour, dt.minute, dt.second)
  {
    var r, dt := Game.Get(d), Rtc.ReadDatetime(d);
    FieldsAgree(d);
    assert r == Game.Reading(dt.year, dt.month, dt.mday, dt.hour, dt.minute, dt.second) <==>
      r.second == dt.second && r.minute == dt.minute && r.day == dt.mday && r.hour == dt.hour;
  }

  /** Field by field: each of the game's unmasked fields matches the
      library's exactly when that register's control bits are clear. */
  lemma FieldsAgree(d: Snapshot)
    ensures Game.Get(d).year == Rtc.ReadDatetime(d).year && Game.Get(d).month == Rtc.ReadDatetime(d).month
    ensures Game.Get(d).second == Rtc.ReadDatetime(d).second <==> d[SECONDS] < 0x80
    ensures Game.Get(d).minute == Rtc.ReadDatetime(d).minute <==> d[MINUTES] < 0x80
    ensures Game.Get(d).day == Rtc.ReadDatetime(d).mday <==> d[DATE] < 0x40
    ensures Game.Get(d).hour == Rtc.ReadDatetime(d).hour <==> d[HOURS] < 0x40
  {
    SecondsAndMinutesDiffer(d);
    DayDiffers(d);
    YearAndMonthAgree(d);
    ControlBits(d[SECONDS]);
    ControlBits(d[MINUTES]);
    ControlBits(d[HOURS]);
    ControlBits(d[DATE]);
    if Rtc.Is12HourMode(d[HOURS]) {
      TwelveHourMisread(d);
    } else {
      Hour24Differs(d);
    }
  }

  /** Bit 7 is the byte's top bit, and bits 6 and 7 its top two. */
  lemma ControlBits(x: byte)
    ensures x & 0x80 != 0 <==> x >= 0x80
    ensures x & 0x40 == 0 && x & 0x80 == 0 <==> x < 0x40
  {
  }

  /** Readings that agree give the same timestamp: `now` and
      `datetime_string` print the same string. */
  lemma TimestampsAgree(d: Snapshot)
    requires ControlBitsClear(d)
    ensures Game.Now(d) == Rtc.DatetimeString(d)
  {
    ReadingsAgree(d);
  }

  /** Readings that agree give the same second of the day: `sec_midnight` and
      `seconds_since_midnight` return the same number. */
  lemma SecondsOfDayAgree(d: Snapshot)
    requires ControlBitsClear(d)
    ensures Game.SecMidnight(d) == Rtc.SecondsSinceMidnight(d)
  {
    ReadingsAgree(d);
  }
}
