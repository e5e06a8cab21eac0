/** The fifteen-second game: its own reading of the DS3231 registers (the
    `DS3231` class of the game script), the elapsed time of one round with
    its wrap past midnight, and the CSV journal the rounds are appended to. */
module Game {
  import opened Registers
  import Format
  import Clock

  /** `_bcd(x, rev)`. Forward (`rev` false): `(x // 10 << 4) | x % 10`, which
      can need more than eight bits (up to 0x195); reverse: high nibble times ten plus low
      nibble. The arguments are register bytes or values below 256. */
  function Bcd(x: byte, rev: bool): (r: bv16)
    ensures rev ==> r <= 165 && (IsBcdByte(x) ==> r <= 99)
    ensures !rev ==> r <= 0x195 && (x <= 99 ==> r <= 0x99 && IsBcdByte(r as byte))
  {
    if !rev then ((x / 10) as bv16 << 4) | (x % 10) as bv16
    else ((x >> 4) * 10 + (x & 0x0F)) as bv16
  }

  /** Decoding an encoded value 0..99 gives the value back. */
  lemma BcdRoundTrip(v: byte)
    requires v <= 99
    ensures Bcd(Bcd(v, false) as byte, true) == v as bv16
    ensures Bcd(Bcd(v, false) as byte, true) as int == v as int
  {
    assert (v as bv16) as int == v as int;
  }

  /** Re-encoding a decoded byte gives the byte back exactly when its low
      nibble is a decimal digit: for every BCD byte, and also for the bytes
      whose high nibble alone is out of range (0xA0 decodes to 100, which
      encodes to 0xA0 again). */
  lemma BcdReencode(b: byte)
    ensures Bcd(Bcd(b, true) as byte, false) == b as bv16 <==> b & 0x0F <= 9
  {
  }

  /** A decoded register has at most two digits exactly when it is below
      0x9A (0x9A to 0x9F decode to 100 to 105). */
  lemma BcdBelowHundred(b: byte)
    ensures Bcd(b, true) as int < 100 <==> b < 0x9A
  {
    var v := Bcd(b, true);
    assert v < 100 <==> b < 0x9A;
  }

  /** The tuple `(Y, M, D, h, m, s)` that `get` returns. */
  datatype Reading = Reading(year: nat, month: nat, day: nat, hour: nat, minute: nat, second: nat)

  /** `get` on a given register snapshot. Seconds, minutes, hours and the
      date are decoded without masking any control bit, and the hours
      register is read as a 24-hour BCD byte whatever its mode bit says; only
      the month register drops its century bit. */
  function Get(d: Snapshot): (r: Reading)
    ensures 2000 <= r.year <= 2165 && r.month <= 25 && r.day <= 165
    ensures r.hour <= 165 && r.minute <= 165 && r.second <= 165
  {
    Reading(year := 2000 + Bcd(d[YEAR], true) as int,
            month := Bcd(d[MONTH] & 0x1F, true) as int,
            day := Bcd(d[DATE], true) as int,
            hour := Bcd(d[HOURS], true) as int,
            minute := Bcd(d[MINUTES], true) as int,
            second := Bcd(d[SECONDS], true) as int)
  }

  /** The registers holding the BCD encodings of a date and time are read
      back as that date and time, whatever the weekday register holds. */
  lemma GetReadsEncoding(year: byte, month: byte, day: byte, hour: byte, minute: byte, second: byte,
                         wday: byte)
    requires year <= 99 && month <= 19 && day <= 99 && hour <= 99 && minute <= 99 && second <= 99
    ensures Get([Bcd(second, false) as byte, Bcd(minute, false) as byte, Bcd(hour, false) as byte, wday,
                 Bcd(day, false) as byte, Bcd(month, false) as byte, Bcd(year, false) as byte]) ==
            Reading(2000 + year as int, month as int, day as int, hour as int, minute as int, second as int)
  {
    var s, mi, h := Bcd(second, false) as byte, Bcd(minute, false) as byte, Bcd(hour, false) as byte;
    var dd, mo, y := Bcd(day, false) as byte, Bcd(month, false) as byte, Bcd(year, false) as byte;
    var d: Snapshot := [s, mi, h, wday, dd, mo, y];
    assert d[SECONDS] == s && d[MINUTES] == mi && d[HOURS] == h;
    assert d[DATE] == dd && d[MONTH] == mo && d[YEAR] == y;
    BcdRoundTrip(second);
    BcdRoundTrip(minute);
    BcdRoundTrip(hour);
    BcdRoundTrip(day);
    BcdRoundTrip(year);
    MonthRoundTrip(month);
  }

  /** The encoding of a month number 0..19 survives the month mask. */
  lemma MonthRoundTrip(month: byte)
    requires month <= 19
    ensures Bcd(Bcd(month, false) as byte & 0x1F, true) as int == month as int
  {
    var v := Bcd(Bcd(month, false) as byte & 0x1F, true);
    assert v == month as bv16;
    assert (month as bv16) as int == month as int;
  }

  /** `now`: the reading as `YYYY-MM-DD HH:MM:SS`, longer when a field has
      three digits. */
  function Now(d: Snapshot): (s: string)
    ensures |s| >= 19
  {
    var r := Get(d);
    Format.TimestampLength(r.year, r.month, r.day, r.hour, r.minute, r.second);
    Format.Timestamp(r.year, r.month, r.day, r.hour, r.minute, r.second)
  }

  /** The timestamp has its 19 characters exactly when none of the seconds,
      minutes, hours and date registers decodes to three digits. */
  lemma NowLength(d: Snapshot)
    ensures |Now(d)| == 19 <==>
      d[SECONDS] < 0x9A && d[MINUTES] < 0x9A && d[HOURS] < 0x9A && d[DATE] < 0x9A
  {
    var r := Get(d);
    Format.TimestampLength(r.year, r.month, r.day, r.hour, r.minute, r.second);
    BcdBelowHundred(d[SECONDS]);
    BcdBelowHundred(d[MINUTES]);
    BcdBelowHundred(d[HOURS]);
    BcdBelowHundred(d[DATE]);
  }

  /** When it is 19 characters long, the reading can be read back from the
      timestamp's digit columns. */
  lemma NowFields(d: Snapshot)
    requires d[SECONDS] < 0x9A && d[MINUTES] < 0x9A && d[HOURS] < 0x9A && d[DATE] < 0x9A
    ensures var s, r := Now(d), Get(d);
      |s| == 19 &&
      Format.AllDigits(s[0..4]) && Format.DigitsValue(s[0..4]) == r.year &&
      Format.AllDigits(s[5..7]) && Format.DigitsValue(s[5..7]) == r.month &&
      Format.AllDigits(s[8..10]) && Format.DigitsValue(s[8..10]) == r.day &&
      Format.AllDigits(s[11..13]) && Format.DigitsValue(s[11..13]) == r.hour &&
      Format.AllDigits(s[14..16]) && Format.DigitsValue(s[14..16]) == r.minute &&
      Format.AllDigits(s[17..19]) && Format.DigitsValue(s[17..19]) == r.second
  {
    var r := Get(d);
    BcdBelowHundred(d[SECONDS]);
    BcdBelowHundred(d[MINUTES]);
    BcdBelowHundred(d[HOURS]);
    BcdBelowHundred(d[DATE]);
    Format.TimestampFields(r.year, r.month, r.day, r.hour, r.minute, r.second);
  }

  /** `sec_midnight`: `h*3600 + m*60 + s` of the reading. */
  function SecMidnight(d: Snapshot): (t: nat)
    ensures t <= 165 * 3600 + 165 * 60 + 165
  {
    var r := Get(d);
    Clock.DaySeconds(r.hour, r.minute, r.second)
  }

  /** For a reading that is a valid time of day, `sec_midnight` is a second
      of the day from which the hour, minute and second can be read back. */
  lemma SecMidnightInverse(d: Snapshot)
    requires var r := Get(d); Clock.ValidTime(r.hour, r.minute, r.second)
    ensures var t, r := SecMidnight(d), Get(d);
      t < Clock.SECONDS_PER_DAY && t / 3600 == r.hour && t % 3600 / 60 == r.minute && t % 60 == r.second
  {
    var r := Get(d);
    Clock.DaySecondsInverse(r.hour, r.minute, r.second);
  }

  /** The duration `play` reports for a start and a stop second: a stop
      before the start is taken to be on the next day. Whatever the two
      values, the clock reads t1 that many seconds after t0. */
  function Elapsed(t0: int, t1: int): (e: int)
    ensures (t0 + e) % Clock.SECONDS_PER_DAY == t1 % Clock.SECONDS_PER_DAY
  {
    if t1 < t0 then t1 + Clock.SECONDS_PER_DAY - t0 else t1 - t0
  }

  /** For two seconds of the day the duration is below one day and leads
      from the start to the stop on the clock. */
  lemma ElapsedOnClock(t0: int, t1: int)
    requires 0 <= t0 < Clock.SECONDS_PER_DAY && 0 <= t1 < Clock.SECONDS_PER_DAY
    ensures var e := Elapsed(t0, t1);
      0 <= e < Clock.SECONDS_PER_DAY && (t0 + e) % Clock.SECONDS_PER_DAY == t1
  {
  }

  /** A round from 23:58:20 to 00:00:50 lasted 150 seconds. */
  lemma ElapsedAcrossMidnight()
    ensures Elapsed(86300, 50) == 150
  {
  }

  /** No other duration below one day leads from t0 to t1. */
  lemma ElapsedUnique(t0: int, t1: int, e: int)
    requires 0 <= t0 < Clock.SECONDS_PER_DAY && 0 <= t1 < Clock.SECONDS_PER_DAY
    requires 0 <= e < Clock.SECONDS_PER_DAY && (t0 + e) % Clock.SECONDS_PER_DAY == t1
    ensures e == Elapsed(t0, t1)
  {
    var n := Clock.SECONDS_PER_DAY;
    ElapsedOnClock(t0, t1);
    if t0 + e < n {
      assert t1 == t0 + e;
    } else {
      assert t0 + e - n < n;
      assert t1 == t0 + e - n;
    }
  }

  /** The reported duration is negative exactly when the stop lies more than
      a day before the start. `sec_midnight` can return values beyond one day
      whenever `get` reads an hour above 23: on a clock in 12-hour mode
      (read as 40 or more) and on registers that are not BCD. */
  lemma ElapsedNegative(t0: int, t1: int)
    ensures Elapsed(t0, t1) < 0 <==> t0 - t1 > Clock.SECONDS_PER_DAY
  {
  }

  /** On a clock in 12-hour mode, a round from 11 PM (hours register 0x71)
      to 1 AM (0x41) is logged as lasting -21600 seconds. */
  lemma TwelveHourNegativeDuration()
    ensures Elapsed(SecMidnight([0x00, 0x00, 0x71, 0x05, 0x01, 0x03, 0x24]),
                    SecMidnight([0x00, 0x00, 0x41, 0x06, 0x02, 0x03, 0x24])) == -21600
  {
    assert SecMidnight([0x00, 0x00, 0x71, 0x05, 0x01, 0x03, 0x24]) == 71 * 3600;
    assert SecMidnight([0x00, 0x00, 0x41, 0x06, 0x02, 0x03, 0x24]) == 41 * 3600;
  }

  /** One round of `play`, given the registers read at the start press, at
      the stop press and for the timestamp: the timestamp of the third
      reading and the elapsed seconds, with one day added to a stop that
      reads earlier than the start. */
  method Play(start: Snapshot, stop: Snapshot, stamp: Snapshot) returns (ts: string, d: int)
    ensures ts == Now(stamp)
    ensures d == Elapsed(SecMidnight(start), SecMidnight(stop))
  {
    var t0 := SecMidnight(start);
    var t1 := SecMidnight(stop);
    if t1 < t0 {
      t1 := t1 + Clock.SECONDS_PER_DAY;
      assert t1 - t0 == Elapsed(SecMidnight(start), SecMidnight(stop));
    } else {
      assert t1 - t0 == Elapsed(SecMidnight(start), SecMidnight(stop));
    }
    d := t1 - t0;
    ts := Now(stamp);
  }

  /** The three register snapshots one round reads. */
  datatype Round = Round(start: Snapshot, stop: Snapshot, stamp: Snapshot)

  /** The header `init_log` writes. */
  const Header: string := "timestamp,temps_ecoule\n"

  /** The journal line `f"{ts},{d}\n"`: the timestamp, a comma after it,
      and a line break at the end. */
  function Line(ts: string, d: int): (l: string)
    ensures |l| >= |ts| + 3 && ts <= l && l[|ts|] == ',' && l[|l| - 1] == '\n'
  {
    ts + "," + Format.IntString(d) + "\n"
  }

  /** A line splits back into its fields: when the timestamp holds no comma
      and no line break, the first comma of the line follows the timestamp,
      the duration's digits follow it, and the only line break ends the line. */
  lemma LineFields(ts: string, d: int)
    requires Format.IsPlainField(ts)
    ensures var l := Line(ts, d);
      l[..|ts|] == ts && l[|ts|] == ',' && l[|ts| + 1..|l| - 1] == Format.IntString(d) && l[|l| - 1] == '\n' &&
      (forall i :: 0 <= i < |ts| ==> l[i] != ',') &&
      (forall i :: 0 <= i < |l| - 1 ==> l[i] != '\n')
  {
    var n := Format.IntString(d);
    Format.IntStringIsPlain(d);
    LineLayout(ts, n);
  }

  /** The layout of `a + "," + b + "\n"` for two plain fields. */
  lemma LineLayout(a: string, b: string)
    requires Format.IsPlainField(a) && Format.IsPlainField(b)
    ensures var l := a + "," + b + "\n";
      l[..|a|] == a && l[|a|] == ',' && l[|a| + 1..|l| - 1] == b && l[|l| - 1] == '\n' &&
      (forall i :: 0 <= i < |a| ==> l[i] != ',') &&
      (forall i :: 0 <= i < |l| - 1 ==> l[i] != '\n')
  {
    var l := a + "," + b + "\n";
    var body := a + "," + b;
    assert l == body + "\n";
    assert l[..|l| - 1] == body;
    assert body[..|a|] == a && body[|a| + 1..] == b;
    forall i | 0 <= i < |body|
      ensures body[i] != '\n'
    {
      if i > |a| {
        assert body[i] == b[i - |a| - 1];
      }
    }
  }

  /** Different rounds never give the same line. */
  lemma LineInjective(ts: string, d: int, ts': string, d': int)
    requires Format.IsPlainField(ts) && Format.IsPlainField(ts')
    requires Line(ts, d) == Line(ts', d')
    ensures ts == ts' && d == d'
  {
    LineFields(ts, d);
    LineFields(ts', d');
    if |ts| < |ts'| {
      assert false;
    } else if |ts'| < |ts| {
      assert false;
    }
  }

  /** The line one round appends to the journal: one line, starting with
      the timestamp of the round's third reading. */
  function RoundLine(r: Round): (l: string)
    ensures Now(r.stamp) <= l && NewlineCount(l) == 1
  {
    NowIsPlain(r.stamp);
    LineIsOneLine(Now(r.stamp), Elapsed(SecMidnight(r.start), SecMidnight(r.stop)));
    Line(Now(r.stamp), Elapsed(SecMidnight(r.start), SecMidnight(r.stop)))
  }

  /** What a sequence of completed rounds appends to the log, in order: one
      line per round. */
  function Journal(rounds: seq<Round>): (j: string)
    ensures NewlineCount(j) == |rounds|
  {
    if rounds == [] then []
    else
      var init, last := Journal(rounds[..|rounds| - 1]), RoundLine(rounds[|rounds| - 1]);
      NewlineCountConcat(init, last);
      init + last
  }

  /** Later rounds only add to the journal: the lines of the first i rounds
      stay at its start. */
  lemma {:induction false} JournalPrefix(rounds: seq<Round>, i: nat)
    requires i <= |rounds|
    ensures Journal(rounds[..i]) <= Journal(rounds)
  {
    if i < |rounds| {
      var init := rounds[..|rounds| - 1];
      assert rounds[..i] == init[..i];
      JournalPrefix(init, i);
    } else {
      assert rounds[..i] == rounds;
    }
  }

  /** The number of line breaks in s. */
  function NewlineCount(s: string): nat
  {
    if s == [] then 0 else NewlineCount(s[..|s| - 1]) + (if s[|s| - 1] == '\n' then 1 else 0)
  }

  lemma {:induction false} NewlineCountConcat(a: string, b: string)
    ensures NewlineCount(a + b) == NewlineCount(a) + NewlineCount(b)
  {
    if b != [] {
      var b' := b[..|b| - 1];
      assert (a + b)[..|a + b| - 1] == a + b';
      NewlineCountConcat(a, b');
    } else {
      assert a + b == a;
    }
  }

  lemma {:induction false} NoNewlineCount(s: string)
    requires forall i :: 0 <= i < |s| ==> s[i] != '\n'
    ensures NewlineCount(s) == 0
  {
    if s != [] {
      NoNewlineCount(s[..|s| - 1]);
    }
  }

  /** A timestamp holds no comma and no line break. */
  lemma NowIsPlain(d: Snapshot)
    ensures Format.IsPlainField(Now(d))
  {
    var g := Get(d);
    Format.TimestampIsPlain(g.year, g.month, g.day, g.hour, g.minute, g.second);
  }

  /** A line with a plain timestamp holds exactly one line break. */
  lemma LineIsOneLine(ts: string, d: int)
    requires Format.IsPlainField(ts)
    ensures NewlineCount(Line(ts, d)) == 1
  {
    var body := ts + "," + Format.IntString(d);
    LineFields(ts, d);
    assert Line(ts, d) == body + "\n";
    assert forall i :: 0 <= i < |body| ==> body[i] == Line(ts, d)[i];
    NoNewlineCount(body);
    NewlineCountConcat(body, "\n");
    assert NewlineCount("\n") == 1;
  }

  /** Playing one more round appends its line to the journal, and so to a
      log that holds some prefix followed by the journal so far. */
  lemma JournalStep(prefix: string, rounds: seq<Round>, i: nat)
    requires i < |rounds|
    ensures Journal(rounds[..i + 1]) == Journal(rounds[..i]) + RoundLine(rounds[i])
    ensures prefix + Journal(rounds[..i + 1]) == prefix + Journal(rounds[..i]) + RoundLine(rounds[i])
  {
    assert rounds[..i + 1] == rounds[..i] + [rounds[i]];
    JournalAppend(rounds[..i], rounds[i]);
    AppendAfter(prefix, Journal(rounds[..i]), RoundLine(rounds[i]));
  }

  /** Appending a line after a text that follows a prefix. */
  lemma AppendAfter(prefix: string, text: string, line: string)
    ensures prefix + (text + line) == prefix + text + line
  {
  }

  /** The journal of one more round is the journal so far followed by that
      round's line. */
  lemma JournalAppend(rounds: seq<Round>, r: Round)
    ensures Journal(rounds + [r]) == Journal(rounds) + RoundLine(r)
  {
    var more := rounds + [r];
    assert more[..|more| - 1] == rounds && more[|more| - 1] == r;
  }

  /** What `init_log` leaves in the log: the header is appended when the
      file is missing from the directory or has size 0, and the contents are
      otherwise kept as they are. */
  function InitLogText(present: bool, content: string): (t: string)
    ensures content <= t
    ensures !present || content == [] <==> t == content + Header
    ensures present && content != [] <==> t == content
  {
    if !present || |content| == 0 then content + Header else content
  }

  /** Running `init_log` on the file it produced changes nothing more. */
  lemma InitLogIdempotent(present: bool, content: string)
    ensures InitLogText(true, InitLogText(present, content)) == InitLogText(present, content)
  {
  }

  /** The file `log.txt`: whether the directory lists it, and its text. */
  class LogFile {
    var present: bool
    var content: string

    /** A file that is not there has no contents. */
    ghost predicate Valid()
      reads this
    {
      !present ==> content == []
    }

    constructor (present: bool, content: string)
      requires !present ==> content == []
      ensures Valid() && this.present == present && this.content == content
    {
      this.present, this.content := present, content;
    }

    /** `open(LOG, "a")`: the file is created when it is missing, and its
        contents are kept. */
    method Open()
      requires Valid()
      modifies this
      ensures Valid() && present && content == old(content)
    {
      present := true;
    }

    /** `f.write(text)`: the text goes to the end of the file. */
    method Write(text: string)
      requires Valid()
      modifies this
      ensures Valid() && present && content == old(content) + text
    {
      present, content := true, content + text;
    }

    /** `init_log(f)`: writes the header when the file is missing or empty. */
    method InitLog()
      requires Valid()
      modifies this
      ensures Valid() && present && content == InitLogText(old(present), old(content))
    {
      if !present || |content| == 0 {
        Write(Header);
      }
    }
  }

  /** The main program from opening the log on, for the rounds played
      before the interrupt: the file is opened for appending, `init_log`
      runs, and every round appends its line. The log ends up holding its
      old contents, or the header when it was empty or missing, followed by
      one line per round. A missing file is opened empty, so it ends up as
      `init_log` would have left it on its own. */
  method Session(log: LogFile, rounds: seq<Round>)
    requires log.Valid()
    modifies log
    ensures log.Valid() && log.present
    ensures log.content == InitLogText(old(log.present), old(log.content)) + Journal(rounds)
  {
    log.Open();
    log.InitLog();
    assert log.content == InitLogText(old(log.present), old(log.content));
    ghost var prefix := log.content;
    assert prefix + Journal(rounds[..0]) == prefix;
    var i := 0;
    while i < |rounds|
      invariant 0 <= i <= |rounds|
      invariant log.Valid() && log.present
      invariant log.content == prefix + Journal(rounds[..i])
    {
      var ts, d := Play(rounds[i].start, rounds[i].stop, rounds[i].stamp);
      var line := Line(ts, d);
      assert line == RoundLine(rounds[i]);
      ghost var before := log.content;
      log.Write(line);
      assert log.content == before + line;
      JournalStep(prefix, rounds, i);
      i := i + 1;
    }
    assert rounds[..|rounds|] == rounds;
  }

  /** A session on a missing or empty log leaves the header followed by one
      line per round: one more line than rounds. */
  lemma FreshLogLines(present: bool, rounds: seq<Round>)
    ensures NewlineCount(InitLogText(present, []) + Journal(rounds)) == |rounds| + 1
  {
    assert InitLogText(present, []) == Header;
    HeaderIsOneLine();
    NewlineCountConcat(Header, Journal(rounds));
  }

  /** The header is one line. */
  lemma HeaderIsOneLine()
    ensures NewlineCount(Header) == 1
  {
    var title := "timestamp,temps_ecoule";
    assert Header == title + "\n";
    NoNewlineCount(title);
    NewlineCountConcat(title, "\n");
    assert NewlineCount("\n") == 1;
  }

  /** A round started at 10:00:05 and stopped at 10:00:20 on 1 March 2024
      is logged as `2024-03-01 10:00:20,15`. */
  lemma RoundLineExample()
    ensures RoundLine(Round([0x05, 0x00, 0x10, 0x05, 0x01, 0x03, 0x24],
                            [0x20, 0x00, 0x10, 0x05, 0x01, 0x03, 0x24],
                            [0x20, 0x00, 0x10, 0x05, 0x01, 0x03, 0x24])) == "2024-03-01 10:00:20,15\n"
  {
    var r := Round([0x05, 0x00, 0x10, 0x05, 0x01, 0x03, 0x24],
                   [0x20, 0x00, 0x10, 0x05, 0x01, 0x03, 0x24],
                   [0x20, 0x00, 0x10, 0x05, 0x01, 0x03, 0x24]);
    ExampleTimestamp();
    ExampleDuration();
    assert RoundLine(r) == Line(Now(r.stamp), 15);
    ExampleLine();
  }

  lemma ExampleLine()
    ensures Line("2024-03-01 10:00:20", 15) == "2024-03-01 10:00:20,15\n"
  {
    assert Format.IntString(15) == "15";
  }

  lemma ExampleTimestamp()
    ensures Now([0x20, 0x00, 0x10, 0x05, 0x01, 0x03, 0x24]) == "2024-03-01 10:00:20"
  {
    ExampleReading();
    ExamplePadding();
  }

  lemma ExampleReading()
    ensures Get([0x20, 0x00, 0x10, 0x05, 0x01, 0x03, 0x24]) == Reading(2024, 3, 1, 10, 0, 20)
  {
  }

  lemma ExamplePadding()
    ensures Format.Padded(2024, 4) == "2024" && Format.Padded(3, 2) == "03" && Format.Padded(1, 2) == "01"
    ensures Format.Padded(10, 2) == "10" && Format.Padded(0, 2) == "00" && Format.Padded(20, 2) == "20"
  {
    ExampleYearPadding();
    ExampleTwoDigitPadding();
    assert Format.Padded(3, 2) == "03" && Format.Padded(1, 2) == "01" && Format.Padded(0, 2) == "00";
  }

  lemma ExampleTwoDigitPadding()
    ensures Format.Padded(10, 2) == "10" && Format.Padded(20, 2) == "20"
  {
    assert Format.Decimal(10) == "10";
    assert Format.Decimal(20) == "20";
  }

  lemma ExampleYearPadding()
    ensures Format.Padded(2024, 4) == "2024"
  {
    assert Format.Decimal(20) == "20";
    assert Format.Decimal(202) == "202";
    assert Format.Decimal(2024) == "2024";
  }

  lemma ExampleDuration()
    ensures Elapsed(SecMidnight([0x05, 0x00, 0x10, 0x05, 0x01, 0x03, 0x24]),
                    SecMidnight([0x20, 0x00, 0x10, 0x05, 0x01, 0x03, 0x24])) == 15
  {
    assert SecMidnight([0x05, 0x00, 0x10, 0x05, 0x01, 0x03, 0x24]) == 36005;
    assert SecMidnight([0x20, 0x00, 0x10, 0x05, 0x01, 0x03, 0x24]) == 36020;
  }

  /** A round started at 23:59:50 and stopped at 00:00:05 lasted 15 seconds. */
  lemma MidnightWrapExample()
    ensures Elapsed(SecMidnight([0x50, 0x59, 0x23, 0x05, 0x01, 0x03, 0x24]),
                    SecMidnight([0x05, 0x00, 0x00, 0x06, 0x02, 0x03, 0x24])) == 15
  {
  }
}
