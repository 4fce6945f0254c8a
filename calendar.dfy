/** Calendar dates as the scripts use them: `datetime.now()` is a parameter
    (the clock is outside the model), `strftime("%Y%m%d")` stamps backup and log
    names, and the temperature script asks the archive for the whole previous
    calendar year. */
module Calendar {
  import opened Text

  datatype Date = Date(year: int, month: int, day: int)

  predicate IsLeapYear(y: int) {
    y % 4 == 0 && (y % 100 != 0 || y % 400 == 0)
  }

  function DaysInMonth(y: int, m: int): (n: int)
    requires 1 <= m <= 12
    ensures 28 <= n <= 31
  {
    if m == 2 then (if IsLeapYear(y) then 29 else 28)
    else if m == 4 || m == 6 || m == 9 || m == 11 then 30
    else 31
  }

  /** A date Python's `datetime` accepts (years 1 to 9999). */
  predicate Valid(d: Date) {
    1 <= d.year <= 9999 && 1 <= d.month <= 12 && 1 <= d.day <= DaysInMonth(d.year, d.month)
  }

  /** `a` is strictly earlier than `b`. */
  predicate Before(a: Date, b: Date) {
    a.year < b.year
    || (a.year == b.year && (a.month < b.month || (a.month == b.month && a.day < b.day)))
  }

  /** `strftime("%Y%m%d")`: the year as `str` writes it, then month and day
      zero-padded to two digits. */
  function Stamp(d: Date): (s: string)
    requires Valid(d)
    ensures |s| == |Decimal(d.year)| + 4
    ensures AllDigits(s) && DigitsValue(s) == d.year * 10000 + d.month * 100 + d.day
  {
    var year, month, day := Decimal(d.year), Padded(d.month, 2), Padded(d.day, 2);
    TwoDigitField(d.month);
    TwoDigitField(d.day);
    ThreeFields(year, month, day, d.year, d.month, d.day);
    year + month + day
  }

  lemma TwoDigitField(n: nat)
    requires n < 100
    ensures DigitsValue(Padded(n, 2)) == n
  {
    assert Pow10(2) == 100;
  }

  /** A number followed by two two-digit fields reads as `y * 10000 + m * 100 + a`. */
  lemma ThreeFields(year: string, month: string, day: string, y: int, m: int, a: int)
    requires AllDigits(year) && DigitsValue(year) == y
    requires |month| == 2 && AllDigits(month) && DigitsValue(month) == m
    requires |day| == 2 && AllDigits(day) && DigitsValue(day) == a
    ensures AllDigits(year + month + day)
    ensures DigitsValue(year + month + day) == y * 10000 + m * 100 + a
  {
    assert Pow10(2) == 100;
    DigitsConcat(year, month);
    DigitsConcat(year + month, day);
  }

  lemma ConcatSplit(a: string, x: string, b: string, y: string)
    requires |a| == |b| && a + x == b + y
    ensures a == b && x == y
  {
    assert a == (a + x)[..|a|] && b == (b + y)[..|b|];
    assert x == (a + x)[|a|..] && y == (b + y)[|b|..];
  }

  /** For four-digit years the stamps sort exactly as the dates do, and two
      stamps are equal only for the same day. */
  lemma StampOrder(d1: Date, d2: Date)
    requires Valid(d1) && Valid(d2) && d1.year >= 1000 && d2.year >= 1000
    ensures |Stamp(d1)| == 8 && |Stamp(d2)| == 8
    ensures LexLess(Stamp(d1), Stamp(d2)) <==> Before(d1, d2)
    ensures Stamp(d1) == Stamp(d2) <==> d1 == d2
  {
    StampBlocks(d1);
    StampBlocks(d2);
    PaddedOrder(d1.year, d2.year, 4);
    PaddedOrder(d1.month, d2.month, 2);
    PaddedOrder(d1.day, d2.day, 2);
    ThreeBlocks(Padded(d1.year, 4), Padded(d1.month, 2), Padded(d1.day, 2),
                Padded(d2.year, 4), Padded(d2.month, 2), Padded(d2.day, 2));
  }

  /** A four-digit year's stamp is three fixed-width blocks. */
  lemma StampBlocks(d: Date)
    requires Valid(d) && d.year >= 1000
    ensures d.year < Pow10(4) && d.month < Pow10(2) && d.day < Pow10(2)
    ensures Stamp(d) == Padded(d.year, 4) + (Padded(d.month, 2) + Padded(d.day, 2))
  {
    assert Pow10(2) == 100 && Pow10(3) == 1000 && Pow10(4) == 10000;
    DecimalIsPadded(d.year, 4);
  }

  /** Strings made of three blocks of matching widths compare block by block. */
  lemma ThreeBlocks(y1: string, m1: string, a1: string, y2: string, m2: string, a2: string)
    requires |y1| == |y2| && |m1| == |m2|
    ensures LexLess(y1 + (m1 + a1), y2 + (m2 + a2))
        <==> LexLess(y1, y2) || (y1 == y2 && (LexLess(m1, m2) || (m1 == m2 && LexLess(a1, a2))))
    ensures y1 + (m1 + a1) == y2 + (m2 + a2) <==> y1 == y2 && m1 == m2 && a1 == a2
  {
    LexBlocks(y1, m1 + a1, y2, m2 + a2);
    LexBlocks(m1, a1, m2, a2);
    if y1 + (m1 + a1) == y2 + (m2 + a2) {
      ConcatSplit(y1, m1 + a1, y2, m2 + a2);
      ConcatSplit(m1, a1, m2, a2);
    }
  }

  /** `YYYY-MM-DD`, as the archive service expects its date parameters. */
  function IsoDate(d: Date): string
    requires d.year >= 0 && d.month >= 0 && d.day >= 0
  {
    Decimal(d.year) + "-" + Padded(d.month, 2) + "-" + Padded(d.day, 2)
  }

  /** The inclusive range of days `first` to `last`. */
  datatype DateRange = DateRange(first: Date, last: Date) {
    predicate Contains(d: Date) {
      !Before(d, first) && !Before(last, d)
    }
  }

  /** The archive request's range: the previous calendar year of `now`. It
      holds exactly the valid days of that year. */
  function PreviousYear(now: Date): (r: DateRange)
    ensures r.first.year == r.last.year == now.year - 1
    ensures forall d :: Valid(d) ==> (r.Contains(d) <==> d.year == now.year - 1)
  {
    DateRange(Date(now.year - 1, 1, 1), Date(now.year - 1, 12, 31))
  }

  /** The two request strings `f"{last_year}-01-01"` and `f"{last_year}-12-31"`
      are the ISO forms of the range's first and last day. */
  function ArchiveDates(now: Date): (r: (string, string))
    requires Valid(now)
    ensures r.0 == IsoDate(PreviousYear(now).first)
    ensures r.1 == IsoDate(PreviousYear(now).last)
  {
    var lastYear := now.year - 1;
    MonthDayFields(Decimal(lastYear));
    (Decimal(lastYear) + "-01-01", Decimal(lastYear) + "-12-31")
  }

  /** The fixed month and day fields of the first and the last day of a year. */
  lemma MonthDayFields(y: string)
    ensures y + "-" + Padded(1, 2) + "-" + Padded(1, 2) == y + "-01-01"
    ensures y + "-" + Padded(12, 2) + "-" + Padded(31, 2) == y + "-12-31"
  {
    TwoDigits(1, '0', '1');
    TwoDigits(12, '1', '2');
    TwoDigits(31, '3', '1');
  }

  lemma TwoDigits(n: nat, tens: char, ones: char)
    requires n < 100 && tens == DigitChar(n / 10) && ones == DigitChar(n % 10)
    ensures Padded(n, 2) == [tens, ones]
  {
    assert Padded(n / 10 / 10, 0) == [];
  }
}
