/**
  * Dates as the controllers use them. An instant is a calendar month of the
  * server's local time, counted from year 0 (so `year * 12 + month`, month
  * 0-based as in `Date.prototype.getMonth`), and the milliseconds elapsed in
  * that month since midnight of its first day. Instants are ordered like the
  * dates they stand for.
  */
module Calendar {
  import opened Base
  import opened Text

  datatype Instant = Instant(monthIndex: int, offset: nat)

  /** `date.getFullYear()` */
  function Year(t: Instant): int
  {
    t.monthIndex / 12
  }

  /** `date.getMonth()`, 0 for January */
  function Month(t: Instant): (m: int)
    ensures 0 <= m < 12
  {
    t.monthIndex % 12
  }

  lemma {:induction false} YearMonthDetermineInstant(t: Instant)
    ensures Year(t) * 12 + Month(t) == t.monthIndex
  {
  }

  /** `a < b` on dates */
  predicate Before(a: Instant, b: Instant)
  {
    a.monthIndex < b.monthIndex || (a.monthIndex == b.monthIndex && a.offset < b.offset)
  }

  /** `a <= b` on dates */
  predicate AtOrBefore(a: Instant, b: Instant)
  {
    !Before(b, a)
  }

  lemma BeforeIsStrictTotalOrder(a: Instant, b: Instant, c: Instant)
    ensures !Before(a, a)
    ensures Before(a, b) && Before(b, c) ==> Before(a, c)
    ensures a != b ==> Before(a, b) || Before(b, a)
  {
  }

  /**
    * The year the `Date` constructor uses for a year argument y: years 0 to
    * 99 are read as 1900 to 1999.
    */
  function FullYear(y: int): int
  {
    if 0 <= y <= 99 then 1900 + y else y
  }

  /**
    * `new Date(y, m, 1)`: midnight of the first day of month m of year y,
    * where a month outside 0..11 carries into the year (month 12 is January
    * of the next year, month -1 December of the previous one).
    */
  function FirstOfMonth(y: int, m: int): (t: Instant)
    ensures t.offset == 0
    ensures Year(t) == FullYear(y) + m / 12 && Month(t) == m % 12
  {
    var t := Instant(FullYear(y) * 12 + m, 0);
    assert FullYear(y) * 12 + m == (FullYear(y) + m / 12) * 12 + m % 12;
    DivModUnique(FullYear(y) * 12 + m, FullYear(y) + m / 12, m % 12);
    t
  }

  lemma DivModUnique(x: int, q: int, r: int)
    requires 0 <= r < 12 && x == q * 12 + r
    ensures x / 12 == q && x % 12 == r
  {
  }

  /**
    * The half-open window `[new Date(y, mm - 1, 1), new Date(y, mm, 1))` of
    * month mm (1-based) of year y, as every monthly report computes it.
    */
  datatype Window = Window(start: Instant, end: Instant)

  function MonthWindow(y: int, mm: int): (w: Window)
    ensures w.start.monthIndex + 1 == w.end.monthIndex
    ensures w.start.offset == 0 && w.end.offset == 0
  {
    Window(FirstOfMonth(y, mm - 1), FirstOfMonth(y, mm))
  }

  predicate InWindow(t: Instant, w: Window)
  {
    AtOrBefore(w.start, t) && Before(t, w.end)
  }

  /** A date lies in the window of a month exactly when it falls in that calendar month. */
  lemma {:induction false} InMonthWindowIff(t: Instant, y: int, mm: int)
    ensures InWindow(t, MonthWindow(y, mm)) <==> t.monthIndex == FullYear(y) * 12 + mm - 1
    ensures InWindow(t, MonthWindow(y, mm)) <==>
              Year(t) == FullYear(y) + (mm - 1) / 12 && Month(t) == (mm - 1) % 12
  {
    var w := MonthWindow(y, mm);
    assert w.start.monthIndex == FullYear(y) * 12 + mm - 1;
    YearMonthDetermineInstant(t);
    YearMonthDetermineInstant(w.start);
  }

  /** For December the window ends on January 1 of the next year. */
  lemma DecemberRollsOver(y: int)
    ensures Year(MonthWindow(y, 12).end) == FullYear(y) + 1
    ensures Month(MonthWindow(y, 12).end) == 0
    ensures Year(MonthWindow(y, 12).start) == FullYear(y)
    ensures Month(MonthWindow(y, 12).start) == 11
  {
  }

  /** Windows of different months of the same year never share a date. */
  lemma {:induction false} MonthWindowsDisjoint(t: Instant, y: int, m1: int, m2: int)
    requires m1 != m2
    ensures !(InWindow(t, MonthWindow(y, m1)) && InWindow(t, MonthWindow(y, m2)))
  {
    InMonthWindowIff(t, y, m1);
    InMonthWindowIff(t, y, m2);
  }

  /**
    * `(b.getFullYear() - a.getFullYear()) * 12 + (b.getMonth() - a.getMonth())`:
    * the number of calendar months from a's month to b's.
    */
  function MonthsBetween(a: Instant, b: Instant): (k: int)
    ensures k == b.monthIndex - a.monthIndex
  {
    YearMonthDetermineInstant(a);
    YearMonthDetermineInstant(b);
    (Year(b) - Year(a)) * 12 + (Month(b) - Month(a))
  }

  /** The `^\d{4}-\d{2}$` pattern of budget months: four digits, a dash, two digits. */
  predicate MonthFormatOk(s: string)
  {
    |s| == 7 && AllDigits(s[..4]) && s[4] == '-' && AllDigits(s[5..])
  }

  /**
    * `const [year, mm] = month.split('-').map(Number)`: the first two pieces
    * read as numbers; None when either is not a number (or is missing).
    */
  function YearMonthOf(s: string): (r: Option<(int, int)>)
    ensures r.Some? ==> r.value.0 >= 0 && r.value.1 >= 0
  {
    var pieces := Split(s, '-');
    if |pieces| < 2 then None
    else
      match (NumberOf(pieces[0]), NumberOf(pieces[1]))
      case (Some(y), Some(m)) => Some((y, m))
      case _ => None
  }

  /** A month in the stored format reads as its four-digit year and its two-digit month. */
  lemma FormatOkParses(s: string)
    requires MonthFormatOk(s)
    ensures YearMonthOf(s) == Some((DigitsValue(s[..4]), DigitsValue(s[5..])))
  {
    var a, b := s[..4], s[5..];
    assert '-' !in a by {
      assert forall k :: 0 <= k < |a| ==> IsDigit(a[k]);
    }
    assert '-' !in b by {
      assert forall k :: 0 <= k < |b| ==> IsDigit(b[k]);
    }
    assert Join([a, b], '-') == s by {
      assert Join([a, b], '-') == a + ['-'] + Join([b], '-');
      assert s == a + ['-'] + b;
    }
    SplitJoin([a, b], '-');
  }

  /** The window of a month in `YYYY-MM` form, or None when it does not read as numbers. */
  function MonthWindowOf(s: string): (w: Option<Window>)
    ensures w.Some? <==> YearMonthOf(s).Some?
    ensures w.Some? ==> w.value == MonthWindow(YearMonthOf(s).value.0, YearMonthOf(s).value.1)
    ensures MonthFormatOk(s) ==> w.Some?
  {
    assert MonthFormatOk(s) ==> YearMonthOf(s).Some? by {
      if MonthFormatOk(s) {
        FormatOkParses(s);
      }
    }
    match YearMonthOf(s)
    case None => None
    case Some((y, m)) => Some(MonthWindow(y, m))
  }

  /** For a stored month "YYYY-12" the window runs from December 1 to January 1 of the next year. */
  lemma DecemberWindow(s: string)
    requires MonthFormatOk(s) && DigitsValue(s[5..]) == 12
    ensures MonthWindowOf(s).Some?
    ensures var w := MonthWindowOf(s).value;
            && Year(w.start) == FullYear(DigitsValue(s[..4])) && Month(w.start) == 11
            && Year(w.end) == FullYear(DigitsValue(s[..4])) + 1 && Month(w.end) == 0
  {
    FormatOkParses(s);
    DecemberRollsOver(DigitsValue(s[..4]));
  }
}
