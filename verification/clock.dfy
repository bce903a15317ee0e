/**
 * The moment `do_pack` reads from `datetime.now()` and its rendering with
 * the format "%Y%m%d%H%M%S".
 */
module Clock {
  import opened Decimal

  /** The fields of a Python `datetime` that the format uses. */
  datatype DateTime = DateTime(year: int, month: int, day: int, hour: int, minute: int, second: int)

  predicate IsLeapYear(y: int) {
    y % 4 == 0 && (y % 100 != 0 || y % 400 == 0)
  }

  function DaysInMonth(y: int, m: int): int
    requires 1 <= m <= 12
  {
    if m == 2 then (if IsLeapYear(y) then 29 else 28)
    else if m == 4 || m == 6 || m == 9 || m == 11 then 30
    else 31
  }

  /** The range a `datetime` enforces on construction. */
  predicate Valid(t: DateTime) {
    && 1 <= t.year <= 9999
    && 1 <= t.month <= 12
    && 1 <= t.day <= DaysInMonth(t.year, t.month)
    && 0 <= t.hour < 24
    && 0 <= t.minute < 60
    && 0 <= t.second < 60
  }

  /** A field below 100 as two digits, zero-padded as %m, %d, %H, %M and %S render it. */
  function Pad2(n: nat): (s: string)
    requires n < 100
    ensures |s| == 2 && AllDigits(s)
    ensures DigitsValue(s) == n
  {
    var s := [DigitChar(n / 10), DigitChar(n % 10)];
    assert s[..1] == [DigitChar(n / 10)];
    assert DigitsValue(s[..1]) == n / 10 by {
      assert s[..1][..0] == [];
    }
    s
  }

  /** Four-digit years spell with exactly four digits. */
  lemma FourDigitYear(y: nat)
    requires 1000 <= y <= 9999
    ensures |NatToDecimal(y)| == 4
  {
    assert |NatToDecimal(y / 1000)| == 1;
    assert |NatToDecimal(y / 100)| == 2;
    assert |NatToDecimal(y / 10)| == 3;
  }

  /**
   * `t.strftime("%Y%m%d%H%M%S")`. The year is written without padding, as
   * the C library's %Y does; every other field takes exactly two digits.
   */
  function Timestamp(t: DateTime): (s: string)
    requires Valid(t)
    ensures AllDigits(s)
    ensures |s| == |NatToDecimal(t.year)| + 10
  {
    var y := NatToDecimal(t.year);
    var s := y + Pad2(t.month) + Pad2(t.day) + Pad2(t.hour) + Pad2(t.minute) + Pad2(t.second);
    AllDigitsAppend(y, Pad2(t.month));
    AllDigitsAppend(y + Pad2(t.month), Pad2(t.day));
    AllDigitsAppend(y + Pad2(t.month) + Pad2(t.day), Pad2(t.hour));
    AllDigitsAppend(y + Pad2(t.month) + Pad2(t.day) + Pad2(t.hour), Pad2(t.minute));
    AllDigitsAppend(y + Pad2(t.month) + Pad2(t.day) + Pad2(t.hour) + Pad2(t.minute), Pad2(t.second));
    s
  }

  /** Reads a 14-digit timestamp back into its fields. */
  function ParseTimestamp(s: string): DateTime
    requires |s| == 14 && AllDigits(s)
  {
    DateTime(DigitsValue(s[0..4]), DigitsValue(s[4..6]), DigitsValue(s[6..8]),
             DigitsValue(s[8..10]), DigitsValue(s[10..12]), DigitsValue(s[12..14]))
  }

  /**
   * For years 1000 to 9999 the rendering is exactly 14 digits and loses
   * nothing: reading it back gives the same moment.
   */
  lemma TimestampRoundTrip(t: DateTime)
    requires Valid(t) && t.year >= 1000
    ensures |Timestamp(t)| == 14
    ensures ParseTimestamp(Timestamp(t)) == t
  {
    FourDigitYear(t.year);
    var y := NatToDecimal(t.year);
    var s := Timestamp(t);
    assert s == y + Pad2(t.month) + Pad2(t.day) + Pad2(t.hour) + Pad2(t.minute) + Pad2(t.second);
    assert s[0..4] == y;
    assert s[4..6] == Pad2(t.month);
    assert s[6..8] == Pad2(t.day);
    assert s[8..10] == Pad2(t.hour);
    assert s[10..12] == Pad2(t.minute);
    assert s[12..14] == Pad2(t.second);
  }
}
