/** Dates of the board: the text order of ISO dates, which the range check uses, is the order of days. */
module TaskDates {
  import Decimal
  import opened Ordering
  import opened TaskModel
  import opened TaskText
  import opened Wrappers

  // ---------------------------------------------------------------- the order of days

  /** A day as a number: year, month and day of the month, read from their digits. */
  function Day(d: string): nat
    requires IsIsoDate(d)
  {
    10000 * Decimal.Value(d[..4]) + 100 * Decimal.Value(d[5..7]) + Decimal.Value(d[8..])
  }

  /** Texts with a common beginning compare as what follows it. */
  lemma {:induction false} CommonStart(a: string, x: string, y: string)
    ensures StringLe(a + x, a + y) <==> StringLe(x, y)
  {
    if a == [] {
      assert a + x == x && a + y == y;
    } else {
      assert (a + x)[1..] == a[1..] + x && (a + y)[1..] == a[1..] + y;
      CommonStart(a[1..], x, y);
    }
  }

  /** Different beginnings of one length decide. */
  lemma {:induction false} FirstDecides(a: string, b: string, x: string, y: string)
    requires |a| == |b| && a != b
    ensures StringLe(a + x, b + y) <==> StringLe(a, b)
  {
    assert (a + x)[1..] == a[1..] + x && (b + y)[1..] == b[1..] + y;
    if a[0] == b[0] {
      assert a == [a[0]] + a[1..] && b == [b[0]] + b[1..];
      FirstDecides(a[1..], b[1..], x, y);
    }
  }

  lemma SingleOrder(c: char, d: char)
    ensures StringLe([c], [d]) <==> c <= d
  {
  }

  /** Digits of one length compare as numbers. */
  lemma {:induction false} DigitsOrder(a: string, b: string)
    requires Decimal.AllDigits(a) && Decimal.AllDigits(b) && |a| == |b|
    ensures StringLe(a, b) <==> Decimal.Value(a) <= Decimal.Value(b)
    ensures a == b <==> Decimal.Value(a) == Decimal.Value(b)
  {
    if a != [] {
      var n := |a| - 1;
      var x, y := a[..n], b[..n];
      assert a == x + [a[n]] && b == y + [b[n]];
      Decimal.LastDigit(a);
      Decimal.LastDigit(b);
      SingleOrder(a[n], b[n]);
      hide Decimal.Value, StringLe;
      DigitsOrder(x, y);
      if x == y {
        CommonStart(x, [a[n]], [b[n]]);
      } else {
        FirstDecides(x, y, [a[n]], [b[n]]);
      }
    }
  }

  lemma DateParts(d: string)
    requires IsIsoDate(d)
    ensures d == d[..4] + ("-" + (d[5..7] + ("-" + d[8..])))
    ensures Decimal.Value(d[5..7]) < 100 && Decimal.Value(d[8..]) < 100
  {
  }

  /** The order of month and day, behind equal years. */
  lemma MonthOrder(a: string, b: string)
    requires |a| == |b| == 4 && Decimal.AllDigits(a[..2]) && Decimal.AllDigits(b[..2])
    requires Decimal.AllDigits(a[2..]) && Decimal.AllDigits(b[2..])
    requires Decimal.Value(a[2..]) < 100 && Decimal.Value(b[2..]) < 100
    ensures StringLe(a[..2] + ("-" + a[2..]), b[..2] + ("-" + b[2..])) <==>
            100 * Decimal.Value(a[..2]) + Decimal.Value(a[2..]) <= 100 * Decimal.Value(b[..2]) + Decimal.Value(b[2..])
  {
    hide Decimal.Value;
    DigitsOrder(a[..2], b[..2]);
    DigitsOrder(a[2..], b[2..]);
    if a[..2] == b[..2] {
      CommonStart(a[..2], "-" + a[2..], "-" + b[2..]);
      CommonStart("-", a[2..], b[2..]);
    } else {
      FirstDecides(a[..2], b[..2], "-" + a[2..], "-" + b[2..]);
    }
  }

  /** The text order of ISO dates, which the range check uses, is the order of their days. */
  lemma DayOrder(a: string, b: string)
    requires IsIsoDate(a) && IsIsoDate(b)
    ensures StringLe(a, b) <==> Day(a) <= Day(b)
  {
    DateParts(a);
    DateParts(b);
    var x, y := a[5..7] + a[8..], b[5..7] + b[8..];
    assert x[..2] == a[5..7] && x[2..] == a[8..] && y[..2] == b[5..7] && y[2..] == b[8..];
    MonthOrder(x, y);
    DigitsOrder(a[..4], b[..4]);
    var s, t := a[5..7] + ("-" + a[8..]), b[5..7] + ("-" + b[8..]);
    hide Decimal.Value, StringLe;
    if a[..4] == b[..4] {
      CommonStart(a[..4], "-" + s, "-" + t);
      CommonStart("-", s, t);
    } else {
      FirstDecides(a[..4], b[..4], "-" + s, "-" + t);
    }
  }

  // ---------------------------------------------------------------- the calendar

  /** The days of the years 1 to `n`. */
  function DaysTo(n: nat): nat {
    if n == 0 then 0 else DaysTo(n - 1) + DaysOf(n, 12)
  }

  /** The days of the first months of a year. */
  function DaysOf(year: nat, months: nat): nat {
    if months == 0 then 0 else DaysOf(year, months - 1) + DaysInMonth(year, months)
  }

  lemma MonthLengths(year: nat, month: nat)
    requires 1 <= month <= 12 && month != 2
    ensures DaysInMonth(year, month) == [31, 28, 31, 30, 31, 30, 31, 31, 30, 31, 30, 31][month - 1]
  {
  }

  /** A year has 365 days, and one more every 4, but not every 100, but every 400 years. */
  lemma {:induction false} CalendarLengths(n: nat)
    ensures DaysTo(n) == 365 * n + n / 4 - n / 100 + n / 400
  {
    if n > 0 {
      CalendarLengths(n - 1);
      YearDays(n);
      DivStep(n, 4);
      DivStep(n, 100);
      DivStep(n, 400);
      hide DaysOf, DaysInMonth;
      FebruaryLength(n);
    }
  }

  lemma FebruaryLength(n: nat)
    ensures DaysInMonth(n, 2) ==
            28 + (if n % 4 == 0 then 1 else 0) - (if n % 100 == 0 then 1 else 0) + if n % 400 == 0 then 1 else 0
  {
    if n % 400 == 0 { Quotient(n, 100, 4 * (n / 400), 0); }
    if n % 100 == 0 { Quotient(n, 4, 25 * (n / 100), 0); }
  }

  lemma DivStep(n: nat, k: nat)
    requires n > 0 && k > 1
    ensures n / k == (n - 1) / k + if n % k == 0 then 1 else 0
  {
    var q, r := (n - 1) / k, (n - 1) % k;
    assert n - 1 == k * q + r;
    if r == k - 1 {
      assert n == k * (q + 1);
      Quotient(n, k, q + 1, 0);
    } else {
      Quotient(n, k, q, r + 1);
    }
  }

  lemma Quotient(n: nat, k: nat, q: nat, r: nat)
    requires k > 0 && r < k && n == k * q + r
    ensures n / k == q && n % k == r
  {
    assert k * (n / k - q) == r - n % k;
    if n / k > q { Product(k, n / k - q); } else if n / k < q { Product(k, q - n / k); }
  }

  lemma Product(k: nat, m: nat)
    requires m >= 1
    ensures k * m >= k
  {
  }

  lemma YearDays(n: nat)
    ensures DaysOf(n, 12) == 337 + DaysInMonth(n, 2)
  {
    assert DaysOf(n, 1) == 31;
    assert DaysOf(n, 2) == 31 + DaysInMonth(n, 2);
    assert DaysOf(n, 4) == DaysOf(n, 2) + 61;
    assert DaysOf(n, 6) == DaysOf(n, 4) + 61;
    assert DaysOf(n, 8) == DaysOf(n, 6) + 62;
    assert DaysOf(n, 10) == DaysOf(n, 8) + 61;
    assert DaysOf(n, 12) == DaysOf(n, 10) + 61;
  }

  function TwoDigits(n: nat): string
    requires n < 100
  {
    [Decimal.Digit(n / 10), Decimal.Digit(n % 10)]
  }

  /** The text of a calendar day. */
  function DateText(year: nat, month: nat, day: nat): string
    requires year < 10000 && month < 100 && day < 100
  {
    TwoDigits(year / 100) + TwoDigits(year % 100) + "-" + TwoDigits(month) + "-" + TwoDigits(day)
  }

  lemma TwoRead(n: nat)
    requires n < 100
    ensures Decimal.AllDigits(TwoDigits(n)) && Decimal.Value(TwoDigits(n)) == n
  {
    var s := TwoDigits(n);
    assert s[..1][..0] == [] && Decimal.Value(s[..1]) == n / 10;
  }

  lemma FourRead(a: nat, b: nat)
    requires a < 100 && b < 100
    ensures Decimal.AllDigits(TwoDigits(a) + TwoDigits(b)) && Decimal.Value(TwoDigits(a) + TwoDigits(b)) == 100 * a + b
  {
    var s := TwoDigits(a) + TwoDigits(b);
    TwoRead(a);
    assert s[..2] == TwoDigits(a) && s[..3][..2] == s[..2];
    assert Decimal.Value(s[..3]) == 10 * a + b / 10;
  }

  lemma TextReads(year: nat, month: nat, day: nat)
    requires year < 10000 && month < 100 && day < 100
    ensures var s := DateText(year, month, day);
            && |s| == 10 && s[4] == '-' && s[7] == '-'
            && Decimal.AllDigits(s[..4]) && Decimal.AllDigits(s[5..7]) && Decimal.AllDigits(s[8..])
            && Decimal.Value(s[..4]) == year && Decimal.Value(s[5..7]) == month && Decimal.Value(s[8..]) == day
  {
    var s := DateText(year, month, day);
    FourRead(year / 100, year % 100);
    TwoRead(month);
    TwoRead(day);
    assert s[..4] == TwoDigits(year / 100) + TwoDigits(year % 100) && s[5..7] == TwoDigits(month)
           && s[8..] == TwoDigits(day);
  }

  lemma ReadBounds(s: string)
    requires Decimal.AllDigits(s) && |s| in {2, 4}
    ensures Decimal.Value(s) < if |s| == 2 then 100 else 10000
  {
    if |s| == 4 {
      ReadBounds(s[..2]);
      assert s[..3][..2] == s[..2];
    } else {
      assert s[..1][..0] == [] && Decimal.Value(s[..1]) <= 9;
    }
  }

  /** The dates that are accepted are exactly the texts of the calendar's days from the year 1 to 9999. */
  lemma IsoDateIff(s: string)
    ensures IsIsoDate(s) <==>
            exists year: nat, month: nat, day: nat ::
              && 1 <= year <= 9999 && 1 <= month <= 12 && 1 <= day <= DaysInMonth(year, month) && day < 100
              && s == DateText(year, month, day)
  {
    if IsIsoDate(s) {
      ReadBounds(s[..4]);
      ReadBounds(s[5..7]);
      ReadBounds(s[8..]);
      var y, m, d := Decimal.Value(s[..4]), Decimal.Value(s[5..7]), Decimal.Value(s[8..]);
      var t := DateText(y, m, d);
      TextReads(y, m, d);
      DigitsOrder(s[..4], t[..4]);
      DigitsOrder(s[5..7], t[5..7]);
      DigitsOrder(s[8..], t[8..]);
      assert s == s[..4] + "-" + s[5..7] + "-" + s[8..] && t == t[..4] + "-" + t[5..7] + "-" + t[8..];
      assert s == DateText(y, m, d);
    }
    if year: nat, month: nat, day: nat :|
      && 1 <= year <= 9999 && 1 <= month <= 12 && 1 <= day <= DaysInMonth(year, month) && day < 100
      && s == DateText(year, month, day)
    {
      TextReads(year, month, day);
    }
  }

  // ---------------------------------------------------------------- the range check

  predicate ValidDate(d: Option<string>) {
    d.Some? ==> IsIsoDate(d.value)
  }

  /** The date that an update leaves behind: the given one, none for null, and otherwise the stored one. */
  function DateAfter(f: Field<string>, was: Option<string>): Option<string> {
    match f case Given(d) => Some(d) case Null => None case Absent => was
  }

  /** Both dates are there and the first is the later one. */
  predicate Reversed(start: Option<string>, due: Option<string>)
    requires ValidDate(start) && ValidDate(due)
  {
    start.Some? && due.Some? && Day(start.value) > Day(due.value)
  }

  lemma RangeOkIff(start: Option<string>, due: Option<string>)
    requires ValidDate(start) && ValidDate(due)
    ensures DateRangeOk(start, due) <==> !Reversed(start, due)
  {
    if start.Some? && due.Some? { DayOrder(start.value, due.value); }
  }
}
