/**
 * Timestamps of the attribute log, in the fixed layout `YYYY-MM-DD HH:MM:SS`
 * that the log viewer both reads (`strptime`) and writes (`strftime`).
 */
module Timestamps {
  import opened Wrappers
  import opened Numbers

  /** A `datetime.datetime` with second precision. */
  datatype DateTime = DateTime(year: int, month: int, day: int, hour: int, minute: int, second: int)

  predicate IsLeapYear(y: int)
  {
    y % 4 == 0 && (y % 100 != 0 || y % 400 == 0)
  }

  function DaysInMonth(y: int, m: int): int
  {
    if m == 2 then (if IsLeapYear(y) then 29 else 28)
    else if m == 4 || m == 6 || m == 9 || m == 11 then 30
    else 31
  }

  /** The dates and times `datetime` accepts with a four-digit year. */
  predicate ValidDateTime(t: DateTime)
  {
    && 1 <= t.year <= 9999
    && 1 <= t.month <= 12
    && 1 <= t.day <= DaysInMonth(t.year, t.month)
    && 0 <= t.hour <= 23
    && 0 <= t.minute <= 59
    && 0 <= t.second <= 59
  }

  /** Two decimal digits of `n`, zero-padded. */
  function Pad2(n: int): (s: string)
    requires 0 <= n < 100
    ensures |s| == 2 && AllDigits(s)
  {
    [DigitChar(n / 10), DigitChar(n % 10)]
  }

  /** Four decimal digits of `n`, zero-padded. */
  function Pad4(n: int): (s: string)
    requires 0 <= n < 10000
    ensures |s| == 4 && AllDigits(s)
  {
    Pad2(n / 100) + Pad2(n % 100)
  }

  /** `t.strftime('%Y-%m-%d %H:%M:%S')`: the layout `strptime` reads. */
  function FormatTimestamp(t: DateTime): (s: string)
    requires ValidDateTime(t)
    ensures WellLaidOut(s)
  {
    var d, h := FormatDate(t), FormatTime(t);
    DateDigits(t);
    TimeDigits(t);
    var s := d + " " + h;
    assert forall i :: 0 <= i < 10 ==> s[i] == d[i];
    assert forall i :: 11 <= i < 19 ==> s[i] == h[i - 11];
    s
  }

  /** `%Y-%m-%d`. */
  function FormatDate(t: DateTime): (s: string)
    requires ValidDateTime(t)
    ensures |s| == 10
  {
    Pad4(t.year) + "-" + Pad2(t.month) + "-" + Pad2(t.day)
  }

  /** `%H:%M:%S`. */
  function FormatTime(t: DateTime): (s: string)
    requires ValidDateTime(t)
    ensures |s| == 8
  {
    Pad2(t.hour) + ":" + Pad2(t.minute) + ":" + Pad2(t.second)
  }

  /** The number written by the two digits at `s[i]` and `s[i + 1]`. */
  function Num2(s: string, i: nat): (n: int)
    requires i + 2 <= |s| && IsDigit(s[i]) && IsDigit(s[i + 1])
    ensures 0 <= n < 100
  {
    DigitValue(s[i]) * 10 + DigitValue(s[i + 1])
  }

  /** Positions of the digits in `YYYY-MM-DD HH:MM:SS`. */
  predicate IsDigitPosition(i: int)
  {
    0 <= i < 19 && i != 4 && i != 7 && i != 10 && i != 13 && i != 16
  }

  /** The layout of a timestamp: digits and separators in their fixed places. */
  predicate WellLaidOut(s: string)
  {
    && |s| == 19
    && s[4] == '-' && s[7] == '-' && s[10] == ' ' && s[13] == ':' && s[16] == ':'
    && forall i :: 0 <= i < 19 && IsDigitPosition(i) ==> IsDigit(s[i])
  }

  /**
   * `datetime.strptime(s, '%Y-%m-%d %H:%M:%S')`, with `None` where Python
   * raises `ValueError`.
   */
  function ParseTimestamp(s: string): (r: Option<DateTime>)
    ensures r.Some? ==> ValidDateTime(r.value)
  {
    if !WellLaidOut(s) then None
    else
      assert IsDigitPosition(0) && IsDigitPosition(1) && IsDigitPosition(2) && IsDigitPosition(3);
      assert IsDigitPosition(5) && IsDigitPosition(6) && IsDigitPosition(8) && IsDigitPosition(9);
      assert IsDigitPosition(11) && IsDigitPosition(12) && IsDigitPosition(14) && IsDigitPosition(15);
      assert IsDigitPosition(17) && IsDigitPosition(18);
      var t := DateTime(Num2(s, 0) * 100 + Num2(s, 2), Num2(s, 5), Num2(s, 8),
                        Num2(s, 11), Num2(s, 14), Num2(s, 17));
      if ValidDateTime(t) then Some(t) else None
  }

  /** What `strftime` writes, `strptime` reads back as the same moment. */
  lemma FormatThenParse(t: DateTime)
    requires ValidDateTime(t)
    ensures ParseTimestamp(FormatTimestamp(t)) == Some(t)
  {
    var s := FormatTimestamp(t);
    var d, h := FormatDate(t), FormatTime(t);
    DateDigits(t);
    TimeDigits(t);
    assert forall i :: 0 <= i < 10 ==> s[i] == d[i];
    assert forall i :: 11 <= i < 19 ==> s[i] == h[i - 11];
    assert WellLaidOut(s);
    assert Num2(s, 0) == Num2(d, 0) && Num2(s, 2) == Num2(d, 2);
    assert Num2(s, 5) == Num2(d, 5) && Num2(s, 8) == Num2(d, 8);
    assert Num2(s, 11) == Num2(h, 0) && Num2(s, 14) == Num2(h, 3) && Num2(s, 17) == Num2(h, 6);
  }

  lemma DateDigits(t: DateTime)
    requires ValidDateTime(t)
    ensures var d := FormatDate(t);
      && d[4] == '-' && d[7] == '-'
      && (forall i :: 0 <= i < 10 && i != 4 && i != 7 ==> IsDigit(d[i]))
      && Num2(d, 0) * 100 + Num2(d, 2) == t.year && Num2(d, 5) == t.month && Num2(d, 8) == t.day
  {
    var d := FormatDate(t);
    assert d[..4] == Pad4(t.year) && d[5..7] == Pad2(t.month) && d[8..10] == Pad2(t.day);
  }

  lemma TimeDigits(t: DateTime)
    requires ValidDateTime(t)
    ensures var h := FormatTime(t);
      && h[2] == ':' && h[5] == ':'
      && (forall i :: 0 <= i < 8 && i != 2 && i != 5 ==> IsDigit(h[i]))
      && Num2(h, 0) == t.hour && Num2(h, 3) == t.minute && Num2(h, 6) == t.second
  {
    var h := FormatTime(t);
    assert h[..2] == Pad2(t.hour) && h[3..5] == Pad2(t.minute) && h[6..8] == Pad2(t.second);
  }

  /** Two digits read by `Num2` are written back unchanged by `Pad2`. */
  lemma Num2ThenPad2(s: string, i: nat)
    requires i + 2 <= |s| && IsDigit(s[i]) && IsDigit(s[i + 1])
    ensures Pad2(Num2(s, i)) == s[i..i + 2]
  {
  }

  /** Four digits read as two pairs are written back unchanged by `Pad4`. */
  lemma Num4ThenPad4(s: string)
    requires 4 <= |s| && IsDigit(s[0]) && IsDigit(s[1]) && IsDigit(s[2]) && IsDigit(s[3])
    ensures Pad4(Num2(s, 0) * 100 + Num2(s, 2)) == s[..4]
  {
    var y := Num2(s, 0) * 100 + Num2(s, 2);
    assert y / 100 == Num2(s, 0) && y % 100 == Num2(s, 2);
    Num2ThenPad2(s, 0);
    Num2ThenPad2(s, 2);
    assert s[..4] == s[0..2] + s[2..4];
  }

  /** A timestamp that parses is exactly the text `strftime` would write for it. */
  lemma ParseThenFormat(s: string)
    requires ParseTimestamp(s).Some?
    ensures FormatTimestamp(ParseTimestamp(s).value) == s
  {
    var t := ParseTimestamp(s).value;
    assert IsDigitPosition(0) && IsDigitPosition(1) && IsDigitPosition(2) && IsDigitPosition(3);
    assert IsDigitPosition(5) && IsDigitPosition(6) && IsDigitPosition(8) && IsDigitPosition(9);
    assert IsDigitPosition(11) && IsDigitPosition(12) && IsDigitPosition(14) && IsDigitPosition(15);
    assert IsDigitPosition(17) && IsDigitPosition(18);
    DateReadBack(s, t);
    TimeReadBack(s, t);
    assert s == s[..10] + s[10..11] + s[11..];
  }

  lemma DateReadBack(s: string, t: DateTime)
    requires ValidDateTime(t) && |s| == 19 && s[4] == '-' && s[7] == '-'
    requires forall i :: 0 <= i < 10 && i != 4 && i != 7 ==> IsDigit(s[i])
    requires t.year == Num2(s, 0) * 100 + Num2(s, 2) && t.month == Num2(s, 5) && t.day == Num2(s, 8)
    ensures FormatDate(t) == s[..10]
  {
    Num4ThenPad4(s);
    Num2ThenPad2(s, 5);
    Num2ThenPad2(s, 8);
    assert s[..10] == s[..4] + s[4..5] + s[5..7] + s[7..8] + s[8..10];
  }

  lemma TimeReadBack(s: string, t: DateTime)
    requires ValidDateTime(t) && |s| == 19 && s[13] == ':' && s[16] == ':'
    requires forall i :: 11 <= i < 19 && i != 13 && i != 16 ==> IsDigit(s[i])
    requires t.hour == Num2(s, 11) && t.minute == Num2(s, 14) && t.second == Num2(s, 17)
    ensures FormatTime(t) == s[11..]
  {
    Num2ThenPad2(s, 11);
    Num2ThenPad2(s, 14);
    Num2ThenPad2(s, 17);
    assert s[11..] == s[11..13] + s[13..14] + s[14..16] + s[16..17] + s[17..19];
  }
}
