/** Calendar dates as Python's `datetime.date` has them: the proleptic Gregorian calendar
    for years 1 to 9999, the checks `date(y, m, d)` makes, the chronological order and
    `isoformat()` (the extended calendar date of section 5.2.1.1 of ISO 8601:2004,
    YYYY-MM-DD) with its inverse `date.fromisoformat` on that form. */
module Dates {
  import opened Prelude

  datatype Date = Date(year: int, month: int, day: int)

  const MinYear: int := 1
  const MaxYear: int := 9999

  predicate IsLeap(y: int)
  {
    y % 4 == 0 && (y % 100 != 0 || y % 400 == 0)
  }

  function DaysInMonth(y: int, m: int): (n: int)
    requires 1 <= m <= 12
    ensures 28 <= n <= 31
    ensures m == 2 ==> (n == 29 <==> IsLeap(y))
  {
    if m == 2 then (if IsLeap(y) then 29 else 28)
    else if m == 4 || m == 6 || m == 9 || m == 11 then 30
    else 31
  }

  predicate Valid(d: Date)
  {
    MinYear <= d.year <= MaxYear && 1 <= d.month <= 12 && 1 <= d.day <= DaysInMonth(d.year, d.month)
  }

  /** `date(y, m, d)`: the year is checked first, then the month, then the day. */
  function MakeDate(y: int, m: int, d: int): (r: Result<Date>)
    ensures r.Ok? <==> Valid(Date(y, m, d))
    ensures r.Ok? ==> r.value == Date(y, m, d)
    ensures r.Err? ==> r.error.ValueError?
  {
    if !(MinYear <= y <= MaxYear) then Err(ValueError("year " + IntText(y) + " is out of range"))
    else if !(1 <= m <= 12) then Err(ValueError("month must be in 1..12"))
    else if !(1 <= d <= DaysInMonth(y, m)) then Err(ValueError("day is out of range for month"))
    else Ok(Date(y, m, d))
  }

  /** The 29th of February exists exactly in leap years, the 31st never, and the leap
      years are the multiples of four except the centuries not divisible by 400. */
  lemma FebruaryFacts(y: int)
    requires MinYear <= y <= MaxYear
    ensures Valid(Date(y, 2, 29)) <==> IsLeap(y)
    ensures !Valid(Date(y, 2, 30)) && !Valid(Date(y, 2, 31))
    ensures IsLeap(2000) && !IsLeap(1900) && IsLeap(2024) && !IsLeap(2023)
  {
  }

  /** Chronological order, which for dates is the order of (year, month, day). */
  predicate Before(a: Date, b: Date)
  {
    a.year < b.year || (a.year == b.year && (a.month < b.month || (a.month == b.month && a.day < b.day)))
  }

  /** `Before` is a strict total order. */
  lemma BeforeOrder(a: Date, b: Date, c: Date)
    ensures !Before(a, a)
    ensures Before(a, b) && Before(b, c) ==> Before(a, c)
    ensures a == b || Before(a, b) || Before(b, a)
    ensures !(Before(a, b) && Before(b, a))
  {
  }

  function Zeros(n: nat): (r: string)
    ensures |r| == n && forall k :: 0 <= k < n ==> r[k] == '0'
  {
    seq(n, k => '0')
  }

  /** `'%0wd' % n`: the decimal text of n with zeros in front up to width w. */
  function Pad(n: nat, w: nat): (r: string)
    ensures AllDigits(r) && |r| >= w
  {
    var t := NatText(n);
    if |t| < w then Zeros(w - |t|) + t else t
  }

  /** `date.isoformat()`. */
  function IsoFormat(d: Date): string
    requires Valid(d)
  {
    Pad(d.year, 4) + "-" + Pad(d.month, 2) + "-" + Pad(d.day, 2)
  }

  /** `date.fromisoformat(s)` on the form YYYY-MM-DD; None where it raises. */
  function ParseIso(s: string): Option<Date>
  {
    if |s| == 10 && s[4] == '-' && s[7] == '-' && AllDigits(s[..4]) && AllDigits(s[5..7]) && AllDigits(s[8..]) then
      var d := Date(DigitsValue(s[..4]), DigitsValue(s[5..7]), DigitsValue(s[8..]));
      if Valid(d) then Some(d) else None
    else None
  }

  /** Leading zeros do not change a number's value. */
  lemma {:induction false} ZerosValue(n: nat, s: string)
    requires AllDigits(s)
    ensures AllDigits(Zeros(n) + s) && DigitsValue(Zeros(n) + s) == DigitsValue(s)
    decreases n
  {
    if n > 0 {
      ZerosValue(n - 1, s);
      LeadingZero(Zeros(n - 1) + s);
      assert Zeros(n) == ['0'] + Zeros(n - 1);
      assert Zeros(n) + s == ['0'] + (Zeros(n - 1) + s);
    } else {
      assert Zeros(n) + s == s;
    }
  }

  lemma {:induction false} LeadingZero(s: string)
    requires AllDigits(s)
    ensures AllDigits(['0'] + s) && DigitsValue(['0'] + s) == DigitsValue(s)
    decreases |s|
  {
    if s != [] {
      var t := ['0'] + s;
      assert t[..|t| - 1] == ['0'] + s[..|s| - 1];
      LeadingZero(s[..|s| - 1]);
    }
  }

  /** A number below 10^w has at most w digits. */
  lemma {:induction false} NatTextWidth(n: nat, w: nat, bound: nat)
    requires 1 <= w && bound == Pow10(w) && n < bound
    ensures |NatText(n)| <= w
    decreases w
  {
    if n >= 10 {
      assert w > 1;
      NatTextWidth(n / 10, w - 1, Pow10(w - 1));
    }
  }

  function Pow10(w: nat): nat
  {
    if w == 0 then 1 else 10 * Pow10(w - 1)
  }

  /** Padding a number that fits keeps its value and gives exactly w characters. */
  lemma PadValue(n: nat, w: nat)
    requires 1 <= w && n < Pow10(w)
    ensures |Pad(n, w)| == w && DigitsValue(Pad(n, w)) == n
  {
    NatTextWidth(n, w, Pow10(w));
    var t := NatText(n);
    if |t| < w {
      ZerosValue(w - |t|, t);
    }
  }

  /** `date.fromisoformat(d.isoformat()) == d`. */
  lemma IsoRoundTrip(d: Date)
    requires Valid(d)
    ensures |IsoFormat(d)| == 10
    ensures ParseIso(IsoFormat(d)) == Some(d)
  {
    assert Pow10(4) == 10000 && Pow10(2) == 100;
    PadValue(d.year, 4);
    PadValue(d.month, 2);
    PadValue(d.day, 2);
    var y, m, dd := Pad(d.year, 4), Pad(d.month, 2), Pad(d.day, 2);
    var s := IsoFormat(d);
    assert s == y + "-" + m + "-" + dd;
    assert s[..4] == y && s[5..7] == m && s[8..] == dd;
  }

  /** Two valid dates with the same ISO text are the same date. */
  lemma IsoInjective(a: Date, b: Date)
    requires Valid(a) && Valid(b) && IsoFormat(a) == IsoFormat(b)
    ensures a == b
  {
    IsoRoundTrip(a);
    IsoRoundTrip(b);
  }
}
