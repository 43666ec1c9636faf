/** Timestamps as the index stores them: UTC strings in the fixed format
    `%Y-%m-%d %H:%M:%S` (core/version_manager.py parses them with
    `datetime.strptime`; utils/time_utils.py writes them with `strftime`).
    A string that parses is mapped to an integer key whose order is the
    chronological order, so that sorting by key is sorting by time. */
module Timestamps {
  import opened Wrappers

  predicate IsDigit(c: char) {
    '0' <= c <= '9'
  }

  predicate AllDigits(s: string) {
    forall i :: 0 <= i < |s| ==> IsDigit(s[i])
  }

  /** The decimal value of a string of digits. */
  function DigitsValue(s: string): (n: nat)
    requires AllDigits(s)
    ensures n < Pow10(|s|)
  {
    if s == [] then 0
    else DigitsValue(s[..|s| - 1]) * 10 + (s[|s| - 1] as int - '0' as int)
  }

  function Pow10(k: nat): (p: nat)
    ensures p >= 1
  {
    if k == 0 then 1 else 10 * Pow10(k - 1)
  }

  predicate IsLeapYear(y: int) {
    (y % 4 == 0 && y % 100 != 0) || y % 400 == 0
  }

  /** The number of days in month `m` of year `y`, as `datetime` checks it. */
  function DaysInMonth(y: int, m: int): (n: int)
    requires 1 <= m <= 12
    ensures 28 <= n <= 31
  {
    if m == 2 then (if IsLeapYear(y) then 29 else 28)
    else if m == 4 || m == 6 || m == 9 || m == 11 then 30
    else 31
  }

  /** The fields a `datetime` accepts: years 1 to 9999 (MINYEAR, MAXYEAR),
      a real day of the month, and seconds below 60. */
  predicate ValidFields(y: int, mo: int, d: int, h: int, mi: int, s: int) {
    1 <= y <= 9999 && 1 <= mo <= 12 && 1 <= d <= DaysInMonth(y, mo) &&
    0 <= h < 24 && 0 <= mi < 60 && 0 <= s < 60
  }

  /** The ordering key of a moment: its fields written side by side as one
      decimal number, which orders moments chronologically. */
  function Key(y: int, mo: int, d: int, h: int, mi: int, s: int): int {
    ((((y * 100 + mo) * 100 + d) * 100 + h) * 100 + mi) * 100 + s
  }

  /** The key of `datetime.min` (0001-01-01 00:00:00), the earliest moment. */
  const MinKey: int := Key(1, 1, 1, 0, 0, 0)

  /** True when `s` has the punctuation of `YYYY-MM-DD HH:MM:SS` and digits
      everywhere else. */
  predicate HasShape(s: string) {
    |s| == 19 && s[4] == '-' && s[7] == '-' && s[10] == ' ' && s[13] == ':' && s[16] == ':' &&
    AllDigits(s[0..4]) && AllDigits(s[5..7]) && AllDigits(s[8..10]) &&
    AllDigits(s[11..13]) && AllDigits(s[14..16]) && AllDigits(s[17..19])
  }

  /** `datetime.strptime(s, "%Y-%m-%d %H:%M:%S")` on zero-padded input: the key
      of the moment `s` names, or None where `strptime` raises ValueError. */
  function ParseTimestamp(s: string): (r: Option<int>)
    ensures r.Some? ==> r.value >= MinKey
  {
    if !HasShape(s) then None
    else
      var y, mo, d := DigitsValue(s[0..4]), DigitsValue(s[5..7]), DigitsValue(s[8..10]);
      var h, mi, sec := DigitsValue(s[11..13]), DigitsValue(s[14..16]), DigitsValue(s[17..19]);
      if ValidFields(y, mo, d, h, mi, sec) then Some(Key(y, mo, d, h, mi, sec)) else None
  }

  function DigitChar(n: nat): char
    requires n < 10
  {
    ('0' as int + n) as char
  }

  /** `%m`-style zero padding to two digits. */
  function Pad2(n: nat): (r: string)
    requires n < 100
    ensures |r| == 2 && AllDigits(r)
  {
    [DigitChar(n / 10), DigitChar(n % 10)]
  }

  /** `%Y`-style zero padding to four digits. */
  function Pad4(n: nat): (r: string)
    requires n < 10000
    ensures |r| == 4 && AllDigits(r)
  {
    [DigitChar(n / 1000), DigitChar(n / 100 % 10), DigitChar(n / 10 % 10), DigitChar(n % 10)]
  }

  /** `strftime("%Y-%m-%d %H:%M:%S")` of a moment with a four-digit year
      (utils/time_utils.py, get_formatted_time). */
  function FormatTimestamp(y: nat, mo: nat, d: nat, h: nat, mi: nat, s: nat): string
    requires 1000 <= y <= 9999 && mo < 100 && d < 100 && h < 100 && mi < 100 && s < 100
  {
    Pad4(y) + "-" + Pad2(mo) + "-" + Pad2(d) + " " + Pad2(h) + ":" + Pad2(mi) + ":" + Pad2(s)
  }

  lemma Pad2Value(n: nat)
    requires n < 100
    ensures DigitsValue(Pad2(n)) == n
  {
    var p := Pad2(n);
    assert p[..1] == [DigitChar(n / 10)];
    assert p[..1][..0] == [];
  }

  lemma Pad4Value(n: nat)
    requires n < 10000
    ensures DigitsValue(Pad4(n)) == n
  {
    var p := Pad4(n);
    assert p[..3] == [DigitChar(n / 1000), DigitChar(n / 100 % 10), DigitChar(n / 10 % 10)];
    assert p[..3][..2] == [DigitChar(n / 1000), DigitChar(n / 100 % 10)];
    assert p[..3][..2][..1] == [DigitChar(n / 1000)];
    assert p[..3][..2][..1][..0] == [];
    var q1, q2, q3 := n / 10, n / 100, n / 1000;
    assert n == q1 * 10 + n % 10;
    assert q1 / 10 == q2 && q2 / 10 == q3;
    assert q1 == q2 * 10 + q1 % 10;
    assert q2 == q3 * 10 + q2 % 10;
    assert n / 100 % 10 == q2 % 10 && n / 10 % 10 == q1 % 10;
    assert DigitsValue(p[..3][..2][..1]) == q3;
    assert DigitsValue(p[..3][..2]) == q2;
    assert DigitsValue(p[..3]) == q1;
  }

  /** What the application writes, the parser reads back: formatting a valid
      moment and parsing the result gives that moment's key. */
  lemma {:induction false} FormatThenParse(y: nat, mo: nat, d: nat, h: nat, mi: nat, s: nat)
    requires 1000 <= y && ValidFields(y, mo, d, h, mi, s)
    ensures ParseTimestamp(FormatTimestamp(y, mo, d, h, mi, s)) == Some(Key(y, mo, d, h, mi, s))
  {
    var t := FormatTimestamp(y, mo, d, h, mi, s);
    assert t[0..4] == Pad4(y);
    assert t[5..7] == Pad2(mo);
    assert t[8..10] == Pad2(d);
    assert t[11..13] == Pad2(h);
    assert t[14..16] == Pad2(mi);
    assert t[17..19] == Pad2(s);
    Pad4Value(y);
    Pad2Value(mo); Pad2Value(d); Pad2Value(h); Pad2Value(mi); Pad2Value(s);
  }

  /** Keys order moments as time does: a later date, or the same date with a
      later time of day, has a larger key. */
  lemma {:induction false} KeyIsChronological(y1: int, mo1: int, d1: int, h1: int, mi1: int, s1: int,
                                              y2: int, mo2: int, d2: int, h2: int, mi2: int, s2: int)
    requires ValidFields(y1, mo1, d1, h1, mi1, s1) && ValidFields(y2, mo2, d2, h2, mi2, s2)
    ensures Key(y1, mo1, d1, h1, mi1, s1) < Key(y2, mo2, d2, h2, mi2, s2) <==>
      (y1, mo1, d1, h1, mi1, s1) != (y2, mo2, d2, h2, mi2, s2) &&
      (y1 < y2 || (y1 == y2 && (mo1 < mo2 || (mo1 == mo2 && (d1 < d2 || (d1 == d2 &&
      (h1 < h2 || (h1 == h2 && (mi1 < mi2 || (mi1 == mi2 && s1 < s2))))))))))
  {
  }
}
