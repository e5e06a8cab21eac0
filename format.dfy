/** Python's decimal rendering of integers, `str(n)` and the zero-padded
    `{:0Nd}` / `{n:0N}` format, and the `YYYY-MM-DD HH:MM:SS` layout both
    scripts build from it. */
module Format {

  predicate IsDigit(c: char)
  {
    '0' <= c <= '9'
  }

  predicate AllDigits(s: string)
  {
    forall i :: 0 <= i < |s| ==> IsDigit(s[i])
  }

  /** The number a string of decimal digits denotes, most significant digit first. */
  function DigitsValue(s: string): nat
    requires AllDigits(s)
  {
    if s == [] then 0 else DigitsValue(s[..|s| - 1]) * 10 + (s[|s| - 1] as int - '0' as int)
  }

  function Pow10(k: nat): (p: nat)
    ensures p >= 1
  {
    if k == 0 then 1 else 10 * Pow10(k - 1)
  }

  function DigitChar(d: nat): (c: char)
    requires d < 10
    ensures IsDigit(c) && c as int - '0' as int == d
  {
    ('0' as int + d) as char
  }

  /** `str(n)` for n >= 0: the digits of n without leading zeros. */
  function Decimal(n: nat): (s: string)
    ensures |s| >= 1 && AllDigits(s)
    ensures DigitsValue(s) == n
    ensures s[0] == '0' <==> n == 0
  {
    if n < 10 then [DigitChar(n)]
    else
      var high := Decimal(n / 10);
      var s := high + [DigitChar(n % 10)];
      assert s[..|s| - 1] == high;
      s
  }

  /** `str(n)` for any integer: a minus sign in front of the digits of a negative number. */
  function IntString(n: int): (s: string)
    ensures |s| >= 1
    ensures n >= 0 <==> AllDigits(s)
    ensures n >= 0 ==> DigitsValue(s) == n
    ensures n < 0 ==> s[0] == '-' && AllDigits(s[1..]) && DigitsValue(s[1..]) == -n
    ensures n >= 0 ==> (s[0] == '0' <==> n == 0)
    ensures n == 0 ==> s == "0"
    ensures n < 0 ==> |s| >= 2 && s[1] != '0'
  {
    if n < 0 then
      var s := "-" + Decimal(-n);
      assert !IsDigit(s[0]) && s[1..] == Decimal(-n);
      s
    else Decimal(n)
  }

  /** `|Decimal(n)|` stays within k digits exactly when n is below 10^k. */
  lemma {:induction false} DecimalLength(n: nat, k: nat)
    requires k >= 1
    ensures |Decimal(n)| <= k <==> n < Pow10(k)
  {
    if n >= 10 {
      if k == 1 {
        assert |Decimal(n)| == |Decimal(n / 10)| + 1;
        assert Pow10(1) == 10;
      } else {
        DecimalLength(n / 10, k - 1);
        assert |Decimal(n)| == |Decimal(n / 10)| + 1;
        assert n / 10 < Pow10(k - 1) <==> n < 10 * Pow10(k - 1);
      }
    } else {
      assert Pow10(k) == 10 * Pow10(k - 1);
    }
  }

  function Zeros(k: nat): (z: string)
    ensures |z| == k && AllDigits(z)
    ensures forall i :: 0 <= i < k ==> z[i] == '0'
  {
    if k == 0 then [] else Zeros(k - 1) + "0"
  }

  /** Leading zeros do not change the value of a digit string. */
  lemma {:induction false} LeadingZeros(k: nat, s: string)
    requires AllDigits(s)
    ensures AllDigits(Zeros(k) + s) && DigitsValue(Zeros(k) + s) == DigitsValue(s)
  {
    if s != [] {
      var t := Zeros(k) + s;
      LeadingZeros(k, s[..|s| - 1]);
      assert t[..|t| - 1] == Zeros(k) + s[..|s| - 1];
    } else {
      assert Zeros(k) + s == Zeros(k);
      LeadingZerosOnly(k);
    }
  }

  lemma {:induction false} LeadingZerosOnly(k: nat)
    ensures DigitsValue(Zeros(k)) == 0
  {
    if k > 0 {
      LeadingZerosOnly(k - 1);
      assert Zeros(k)[..k - 1] == Zeros(k - 1);
    }
  }

  /** `{:0Wd}` of n >= 0: the digits of n, left-padded with zeros to at least `width` characters. */
  function Padded(n: nat, width: nat): (s: string)
    ensures AllDigits(s) && DigitsValue(s) == n
    ensures |s| == if |Decimal(n)| >= width then |Decimal(n)| else width
  {
    var digits := Decimal(n);
    LeadingZeros(if |digits| >= width then 0 else width - |digits|, digits);
    if |digits| >= width then digits else Zeros(width - |digits|) + digits
  }

  /** Padded(n, w) is exactly w characters long iff n has at most w digits. */
  lemma PaddedLength(n: nat, width: nat)
    requires width >= 1
    ensures |Padded(n, width)| >= width
    ensures |Padded(n, width)| == width <==> n < Pow10(width)
  {
    DecimalLength(n, width);
  }

  /** `"{:04d}-{:02d}-{:02d} {:02d}:{:02d}:{:02d}".format(Y, M, D, h, m, s)`. */
  function Timestamp(year: nat, month: nat, day: nat, hour: nat, minute: nat, second: nat): (t: string)
    ensures |t| >= 19
  {
    Padded(year, 4) + "-" + Padded(month, 2) + "-" + Padded(day, 2) + " "
      + Padded(hour, 2) + ":" + Padded(minute, 2) + ":" + Padded(second, 2)
  }

  /** The timestamp is exactly 19 characters long iff every field fits its width. */
  lemma TimestampLength(year: nat, month: nat, day: nat, hour: nat, minute: nat, second: nat)
    ensures |Timestamp(year, month, day, hour, minute, second)| >= 19
    ensures |Timestamp(year, month, day, hour, minute, second)| == 19 <==>
              year < 10000 && month < 100 && day < 100 && hour < 100 && minute < 100 && second < 100
  {
    assert Pow10(2) == 100 && Pow10(4) == 10000;
    PaddedLength(year, 4);
    PaddedLength(month, 2);
    PaddedLength(day, 2);
    PaddedLength(hour, 2);
    PaddedLength(minute, 2);
    PaddedLength(second, 2);
  }

  /** Where the six padded fields and the five separators sit in a timestamp. */
  lemma TimestampLayout(a: string, b: string, c: string, d: string, e: string, f: string)
    requires |a| == 4 && |b| == 2 && |c| == 2 && |d| == 2 && |e| == 2 && |f| == 2
    ensures var t := a + "-" + b + "-" + c + " " + d + ":" + e + ":" + f;
      |t| == 19 &&
      t[4] == '-' && t[7] == '-' && t[10] == ' ' && t[13] == ':' && t[16] == ':' &&
      t[0..4] == a && t[5..7] == b && t[8..10] == c && t[11..13] == d && t[14..16] == e && t[17..19] == f
  {
    var date := a + "-" + b + "-" + c;
    var time := d + ":" + e + ":" + f;
    assert date[0..4] == a && date[5..7] == b && date[8..10] == c;
    assert time[0..2] == d && time[3..5] == e && time[6..8] == f;
    var t := a + "-" + b + "-" + c + " " + d + ":" + e + ":" + f;
    assert t == date + " " + time;
    assert t[0..10] == date && t[11..19] == time;
    assert t[0..4] == date[0..4] && t[5..7] == date[5..7] && t[8..10] == date[8..10];
    assert t[11..13] == time[0..2] && t[14..16] == time[3..5] && t[17..19] == time[6..8];
  }

  /** When the fields fit, the timestamp has its separators at fixed places and
      each field can be read back from its digit columns. */
  lemma TimestampFields(year: nat, month: nat, day: nat, hour: nat, minute: nat, second: nat)
    requires year < 10000 && month < 100 && day < 100 && hour < 100 && minute < 100 && second < 100
    ensures var t := Timestamp(year, month, day, hour, minute, second);
      |t| == 19 &&
      t[4] == '-' && t[7] == '-' && t[10] == ' ' && t[13] == ':' && t[16] == ':' &&
      AllDigits(t[0..4]) && DigitsValue(t[0..4]) == year &&
      AllDigits(t[5..7]) && DigitsValue(t[5..7]) == month &&
      AllDigits(t[8..10]) && DigitsValue(t[8..10]) == day &&
      AllDigits(t[11..13]) && DigitsValue(t[11..13]) == hour &&
      AllDigits(t[14..16]) && DigitsValue(t[14..16]) == minute &&
      AllDigits(t[17..19]) && DigitsValue(t[17..19]) == second
  {
    TimestampLength(year, month, day, hour, minute, second);
    PaddedLength(year, 4);
    PaddedLength(month, 2);
    PaddedLength(day, 2);
    PaddedLength(hour, 2);
    PaddedLength(minute, 2);
    PaddedLength(second, 2);
    assert Pow10(2) == 100 && Pow10(4) == 10000;
    TimestampLayout(Padded(year, 4), Padded(month, 2), Padded(day, 2),
                    Padded(hour, 2), Padded(minute, 2), Padded(second, 2));
  }

  /** Distinct in-range field tuples give distinct timestamps. */
  lemma TimestampInjective(y: nat, mo: nat, d: nat, h: nat, mi: nat, s: nat,
                           y': nat, mo': nat, d': nat, h': nat, mi': nat, s': nat)
    requires y < 10000 && mo < 100 && d < 100 && h < 100 && mi < 100 && s < 100
    requires y' < 10000 && mo' < 100 && d' < 100 && h' < 100 && mi' < 100 && s' < 100
    requires Timestamp(y, mo, d, h, mi, s) == Timestamp(y', mo', d', h', mi', s')
    ensures y == y' && mo == mo' && d == d' && h == h' && mi == mi' && s == s'
  {
    TimestampFields(y, mo, d, h, mi, s);
    TimestampFields(y', mo', d', h', mi', s');
  }

  /** A field of a comma-separated line: no comma and no line break in it. */
  predicate IsPlainField(s: string)
  {
    forall i :: 0 <= i < |s| ==> s[i] != ',' && s[i] != '\n'
  }

  /** Joining two plain fields gives a plain field. */
  lemma PlainConcat(a: string, b: string)
    requires IsPlainField(a) && IsPlainField(b)
    ensures IsPlainField(a + b)
  {
    forall i | 0 <= i < |a + b|
      ensures (a + b)[i] != ',' && (a + b)[i] != '\n'
    {
      if i >= |a| {
        assert (a + b)[i] == b[i - |a|];
      }
    }
  }

  /** A timestamp never contains a comma or a line break. */
  lemma TimestampIsPlain(year: nat, month: nat, day: nat, hour: nat, minute: nat, second: nat)
    ensures IsPlainField(Timestamp(year, month, day, hour, minute, second))
  {
    var a, b, c := Padded(year, 4), Padded(month, 2), Padded(day, 2);
    var d, e, f := Padded(hour, 2), Padded(minute, 2), Padded(second, 2);
    DigitsArePlain(a);
    DigitsArePlain(b);
    DigitsArePlain(c);
    DigitsArePlain(d);
    DigitsArePlain(e);
    DigitsArePlain(f);
    PlainLayout(a, b, c, d, e, f);
  }

  /** A digit string is a plain field. */
  lemma DigitsArePlain(s: string)
    requires AllDigits(s)
    ensures IsPlainField(s)
  {
  }

  /** Six plain fields joined by the timestamp's separators form a plain field. */
  lemma PlainLayout(a: string, b: string, c: string, d: string, e: string, f: string)
    requires IsPlainField(a) && IsPlainField(b) && IsPlainField(c)
    requires IsPlainField(d) && IsPlainField(e) && IsPlainField(f)
    ensures IsPlainField(a + "-" + b + "-" + c + " " + d + ":" + e + ":" + f)
  {
    assert IsPlainField("-") && IsPlainField(" ") && IsPlainField(":");
    var t := a;
    PlainConcat(t, "-");
    t := t + "-";
    PlainConcat(t, b);
    t := t + b;
    PlainConcat(t, "-");
    t := t + "-";
    PlainConcat(t, c);
    t := t + c;
    PlainConcat(t, " ");
    t := t + " ";
    PlainConcat(t, d);
    t := t + d;
    PlainConcat(t, ":");
    t := t + ":";
    PlainConcat(t, e);
    t := t + e;
    PlainConcat(t, ":");
    t := t + ":";
    PlainConcat(t, f);
  }

  /** `str(n)` never contains a comma or a line break. */
  lemma IntStringIsPlain(n: int)
    ensures IsPlainField(IntString(n))
  {
    var s := IntString(n);
    if n < 0 {
      forall i | 1 <= i < |s|
        ensures s[i] != ',' && s[i] != '\n'
      {
        assert s[i] == s[1..][i - 1];
      }
    }
  }
}
