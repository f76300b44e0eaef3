/**
 * The archive key of `save_to_json` in main.py:
 * `datetime.now().strftime("%Y-%m-%d %H:%M:%S.%f")`.  The clock read itself
 * is not modelled: the date and time come in as a `DateTime` value.
 */
module Timestamps {
  import opened Results

  /** A `datetime.datetime` value (naive, without time zone). */
  datatype DateTime = DateTime(
    year: int, month: int, day: int,
    hour: int, minute: int, second: int, microsecond: int)

  predicate IsLeapYear(y: int) {
    y % 4 == 0 && (y % 100 != 0 || y % 400 == 0)
  }

  function DaysInMonth(y: int, m: int): int
    requires 1 <= m <= 12
  {
    if m == 2 then (if IsLeapYear(y) then 29 else 28)
    else if m == 4 || m == 6 || m == 9 || m == 11 then 30
    else 31
  }

  /** The ranges `datetime` enforces on every value it constructs
      (`MINYEAR` = 1, `MAXYEAR` = 9999). */
  predicate Valid(dt: DateTime) {
    && 1 <= dt.year <= 9999
    && 1 <= dt.month <= 12
    && 1 <= dt.day <= DaysInMonth(dt.year, dt.month)
    && 0 <= dt.hour < 24
    && 0 <= dt.minute < 60
    && 0 <= dt.second < 60
    && 0 <= dt.microsecond < 1000000
  }

  // ------------------------------------------------------------------
  // Decimal digits
  // ------------------------------------------------------------------

  function Pow10(n: nat): nat {
    if n == 0 then 1 else 10 * Pow10(n - 1)
  }

  predicate IsDigit(c: char) {
    '0' <= c <= '9'
  }

  predicate AllDigits(s: string) {
    forall i :: 0 <= i < |s| ==> IsDigit(s[i])
  }

  function DigitChar(d: nat): char
    requires d < 10
  {
    ('0' as int + d) as char
  }

  /** The number a string of decimal digits denotes. */
  function Decimal(s: string): nat
    requires AllDigits(s)
  {
    if s == [] then 0
    else Decimal(s[..|s| - 1]) * 10 + (s[|s| - 1] as int - '0' as int)
  }

  /** `n` in exactly `width` decimal digits, zero-padded on the left, as the
      directives `%m %d %H %M %S` (width 2), `%Y` (width 4) and `%f` (width 6)
      print it. */
  function ZeroPad(n: nat, width: nat): (r: string)
    requires n < Pow10(width)
    ensures |r| == width
    ensures AllDigits(r)
    ensures Decimal(r) == n
  {
    if width == 0 then []
    else
      var init := ZeroPad(n / 10, width - 1);
      var r := init + [DigitChar(n % 10)];
      assert r[..|r| - 1] == init;
      r
  }

  // ------------------------------------------------------------------
  // The key format and its parser
  // ------------------------------------------------------------------

  /** The field `a`, the separator `c`, then the rest of the key. */
  function Joined(a: string, c: char, rest: string): string {
    a + [c] + rest
  }

  /** `strftime("%Y-%m-%d %H:%M:%S.%f")`: `YYYY-MM-DD HH:MM:SS.ffffff`. */
  function Format(dt: DateTime): string
    requires Valid(dt)
  {
    Joined(ZeroPad(dt.year, 4), '-',
    Joined(ZeroPad(dt.month, 2), '-',
    Joined(ZeroPad(dt.day, 2), ' ',
    Joined(ZeroPad(dt.hour, 2), ':',
    Joined(ZeroPad(dt.minute, 2), ':',
    Joined(ZeroPad(dt.second, 2), '.',
    ZeroPad(dt.microsecond, 6)))))))
  }

  /** Reads a field of `width` digits followed by `sep`: its number and what
      follows the separator. */
  function ReadField(s: string, width: nat, sep: char): Option<(nat, string)> {
    if |s| > width && AllDigits(s[..width]) && s[width] == sep
    then Some((Decimal(s[..width]), s[width + 1..]))
    else None
  }

  /** Reads the last field: exactly `width` digits and nothing after them. */
  function ReadLast(s: string, width: nat): Option<nat> {
    if |s| == width && AllDigits(s) then Some(Decimal(s)) else None
  }

  /** Reads a key back: the fields of a `YYYY-MM-DD HH:MM:SS.ffffff` string
      that form a valid `datetime`, or `None`. */
  function Parse(s: string): Option<DateTime> {
    match ReadField(s, 4, '-')
    case None => None
    case Some((year, s1)) =>
    match ReadField(s1, 2, '-')
    case None => None
    case Some((month, s2)) =>
    match ReadField(s2, 2, ' ')
    case None => None
    case Some((day, s3)) =>
    match ReadField(s3, 2, ':')
    case None => None
    case Some((hour, s4)) =>
    match ReadField(s4, 2, ':')
    case None => None
    case Some((minute, s5)) =>
    match ReadField(s5, 2, '.')
    case None => None
    case Some((second, s6)) =>
    match ReadLast(s6, 6)
    case None => None
    case Some(microsecond) =>
      var dt := DateTime(year, month, day, hour, minute, second, microsecond);
      if Valid(dt) then Some(dt) else None
  }

  /** A field written by `ZeroPad` reads back as its number, followed by what
      comes after its separator. */
  lemma ReadPadded(n: nat, width: nat, sep: char, rest: string)
    requires n < Pow10(width)
    ensures ReadField(Joined(ZeroPad(n, width), sep, rest), width, sep) == Some((n, rest))
  {
    var s := Joined(ZeroPad(n, width), sep, rest);
    assert s[..width] == ZeroPad(n, width);
    assert s[width + 1..] == rest;
  }

  /** What a field reads as is exactly what was written for it. */
  lemma ReadFieldWritten(s: string, width: nat, sep: char, n: nat, rest: string)
    requires ReadField(s, width, sep) == Some((n, rest))
    ensures n < Pow10(width) && s == Joined(ZeroPad(n, width), sep, rest)
  {
    PadDecimal(s[..width]);
    assert s == s[..width] + [sep] + s[width + 1..];
  }

  /** Every key reads back as the date and time it was made from. */
  lemma ParseFormat(dt: DateTime)
    requires Valid(dt)
    ensures Parse(Format(dt)) == Some(dt)
  {
    var f := ZeroPad(dt.microsecond, 6);
    var s5 := Joined(ZeroPad(dt.second, 2), '.', f);
    var s4 := Joined(ZeroPad(dt.minute, 2), ':', s5);
    var s3 := Joined(ZeroPad(dt.hour, 2), ':', s4);
    var s2 := Joined(ZeroPad(dt.day, 2), ' ', s3);
    var s1 := Joined(ZeroPad(dt.month, 2), '-', s2);
    ReadPadded(dt.year, 4, '-', s1);
    ReadPadded(dt.month, 2, '-', s2);
    ReadPadded(dt.day, 2, ' ', s3);
    ReadPadded(dt.hour, 2, ':', s4);
    ReadPadded(dt.minute, 2, ':', s5);
    ReadPadded(dt.second, 2, '.', f);
  }

  /** Every string that parses is the key of what it parses to, so `Format`
      and `Parse` are inverse bijections between valid values and keys. */
  lemma FormatParse(s: string, dt: DateTime)
    requires Parse(s) == Some(dt)
    ensures Valid(dt) && Format(dt) == s
  {
    var (year, s1) := ReadField(s, 4, '-').value;
    var (month, s2) := ReadField(s1, 2, '-').value;
    var (day, s3) := ReadField(s2, 2, ' ').value;
    var (hour, s4) := ReadField(s3, 2, ':').value;
    var (minute, s5) := ReadField(s4, 2, ':').value;
    var (second, s6) := ReadField(s5, 2, '.').value;
    ReadFieldWritten(s, 4, '-', year, s1);
    ReadFieldWritten(s1, 2, '-', month, s2);
    ReadFieldWritten(s2, 2, ' ', day, s3);
    ReadFieldWritten(s3, 2, ':', hour, s4);
    ReadFieldWritten(s4, 2, ':', minute, s5);
    ReadFieldWritten(s5, 2, '.', second, s6);
    PadDecimal(s6);
  }

  /** Two different instants never share a key; a key collision means the
      two submissions were stamped with the same microsecond. */
  lemma FormatInjective(a: DateTime, b: DateTime)
    requires Valid(a) && Valid(b)
    ensures Format(a) == Format(b) <==> a == b
  {
    if Format(a) == Format(b) {
      ParseFormat(a);
      ParseFormat(b);
    }
  }

  /** Every key is 26 characters long, with its separators at fixed places. */
  lemma FormatShape(dt: DateTime)
    requires Valid(dt)
    ensures |Format(dt)| == 26
    ensures Format(dt)[4] == '-' && Format(dt)[7] == '-' && Format(dt)[10] == ' '
    ensures Format(dt)[13] == ':' && Format(dt)[16] == ':' && Format(dt)[19] == '.'
  {
    var f := ZeroPad(dt.microsecond, 6);
    var s5 := Joined(ZeroPad(dt.second, 2), '.', f);
    var s4 := Joined(ZeroPad(dt.minute, 2), ':', s5);
    var s3 := Joined(ZeroPad(dt.hour, 2), ':', s4);
    var s2 := Joined(ZeroPad(dt.day, 2), ' ', s3);
    var s1 := Joined(ZeroPad(dt.month, 2), '-', s2);
    var s := Format(dt);
    assert s[4] == '-' && s[5..] == s1;
    assert s1[2] == '-' && s1[3..] == s2;
    assert s2[2] == ' ' && s2[3..] == s3;
    assert s3[2] == ':' && s3[3..] == s4;
    assert s4[2] == ':' && s4[3..] == s5;
    assert s5[2] == '.';
  }

  /** A digit string is the zero-padded form of the number it denotes. */
  lemma {:induction false} PadDecimal(s: string)
    requires AllDigits(s)
    ensures Decimal(s) < Pow10(|s|) && ZeroPad(Decimal(s), |s|) == s
    decreases |s|
  {
    if s != [] {
      var init := s[..|s| - 1];
      assert AllDigits(init) by {
        forall i | 0 <= i < |init| ensures IsDigit(init[i]) { assert init[i] == s[i]; }
      }
      PadDecimal(init);
      var n := Decimal(s);
      assert n / 10 == Decimal(init) && n % 10 == s[|s| - 1] as int - '0' as int;
      assert s == init + [s[|s| - 1]];
    }
  }
}
