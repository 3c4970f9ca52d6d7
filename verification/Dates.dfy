/**
 * Calendar dates as Python's `datetime` holds them when built by `strptime`
 * from a date-only format (the time of day is always midnight), their order,
 * `datetime.min`, and `isoformat()`.
 */
module Dates {
  import opened Strings

  datatype Ymd = Ymd(year: int, month: int, day: int)

  predicate IsLeapYear(y: int) {
    y % 4 == 0 && (y % 100 != 0 || y % 400 == 0)
  }

  function DaysInMonth(y: int, m: int): int
    requires 1 <= m <= 12
  {
    if m == 2 then (if IsLeapYear(y) then 29 else 28)
    else if m == 4 || m == 6 || m == 9 || m == 11 then 30
    else 31
  }

  /** The range `datetime` accepts: years 1..9999 and real calendar days. */
  predicate ValidDate(d: Ymd) {
    && 1 <= d.year <= 9999
    && 1 <= d.month <= 12
    && 1 <= d.day <= DaysInMonth(d.year, d.month)
  }

  type Date = d: Ymd | ValidDate(d) witness Ymd(1, 1, 1)

  /** `datetime.min`. */
  const MinDate: Date := Ymd(1, 1, 1)

  /** Chronological order: `a < b` on `datetime` values at midnight. */
  predicate Before(a: Date, b: Date) {
    || a.year < b.year
    || (a.year == b.year && a.month < b.month)
    || (a.year == b.year && a.month == b.month && a.day < b.day)
  }

  lemma MinDateIsEarliest(d: Date)
    ensures d == MinDate || Before(MinDate, d)
  {
  }

  lemma BeforeIsStrictTotalOrder(a: Date, b: Date, c: Date)
    ensures !Before(a, a)
    ensures a != b ==> Before(a, b) || Before(b, a)
    ensures Before(a, b) ==> !Before(b, a)
    ensures Before(a, b) && Before(b, c) ==> Before(a, c)
  {
  }

  /** `"%04d-%02d-%02d"`: the date part of `isoformat()`. */
  function YmdText(d: Date): (s: string)
    ensures |s| == 10
  {
    DecimalWidth(d.year, 4);
    DecimalWidth(d.month, 2);
    DecimalWidth(d.day, 2);
    ZeroPad(d.year, 4) + "-" + ZeroPad(d.month, 2) + "-" + ZeroPad(d.day, 2)
  }

  /** `datetime.isoformat()` for a datetime at midnight. */
  function IsoFormat(d: Date): (s: string)
    ensures |s| == 19
  {
    YmdText(d) + "T00:00:00"
  }

  /** `isoformat().split("T")[0]` gives back exactly the `%Y-%m-%d` text. */
  lemma IsoDatePart(d: Date)
    ensures FirstPiece(IsoFormat(d), 'T') == YmdText(d)
    ensures StartsWith(IsoFormat(d), YmdText(d))
  {
    var y := ZeroPad(d.year, 4);
    var m := ZeroPad(d.month, 2);
    var dd := ZeroPad(d.day, 2);
    assert YmdText(d) == y + "-" + m + "-" + dd;
    assert 'T' !in YmdText(d) by {
      forall i | 0 <= i < |YmdText(d)| ensures YmdText(d)[i] != 'T' {
        if i < 4 { assert YmdText(d)[i] == y[i]; }
        else if 5 <= i < 7 { assert YmdText(d)[i] == m[i - 5]; }
        else if 8 <= i { assert YmdText(d)[i] == dd[i - 8]; }
      }
    }
    assert IsoFormat(d) == YmdText(d) + ['T'] + "00:00:00";
    FirstPieceOfSeparated(YmdText(d), 'T', "00:00:00");
    assert IsoFormat(d)[..10] == YmdText(d);
  }

  /** `IsoDatePart` for every date at once. */
  lemma IsoDatePartEverywhere()
    ensures forall d: Date :: FirstPiece(IsoFormat(d), 'T') == YmdText(d)
  {
    forall d: Date ensures FirstPiece(IsoFormat(d), 'T') == YmdText(d) {
      IsoDatePart(d);
    }
  }
}
