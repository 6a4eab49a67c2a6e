/**
 * The date-only shape `^\d{4}-\d{2}-\d{2}$` the session form checks, the
 * ECMAScript `Date.prototype.toISOString` rendering of a UTC instant, and
 * `getTodayISO`, which keeps the first ten characters of that rendering.
 */
module IsoDate {
  import opened JsParseInt

  /** `/^\d{4}-\d{2}-\d{2}$/.test(s)`: without the multiline flag `^` and `$`
      anchor at the ends of the whole string, so `s` has exactly ten
      characters. `\d` is the ASCII digit class; month and day are not
      range-checked. */
  predicate IsIsoDateShape(s: string) {
    && |s| == 10
    && AllDigits(s[0..4]) && s[4] == '-'
    && AllDigits(s[5..7]) && s[7] == '-'
    && AllDigits(s[8..10])
  }

  function Pow10(w: nat): (p: nat)
    ensures p >= 1
  {
    if w == 0 then 1 else 10 * Pow10(w - 1)
  }

  /** The last `w` decimal digits of `n`, most significant first; for
      `n < 10^w` this is `n` left-padded with '0' to width `w`. */
  function PadZero(n: nat, w: nat): (s: string)
    ensures |s| == w && AllDigits(s)
  {
    if w == 0 then "" else PadZero(n / 10, w - 1) + [DigitChar(n % 10)]
  }

  /** Reading back a padded rendering gives the number. */
  lemma {:induction false} PadZeroValue(n: nat, w: nat)
    requires n < Pow10(w)
    ensures DigitsValue(PadZero(n, w)) == n
  {
    if w > 0 {
      var s := PadZero(n, w);
      var q, d := n / 10, n % 10;
      assert n == 10 * q + d;
      assert q < Pow10(w - 1);
      assert s[..|s| - 1] == PadZero(q, w - 1);
      assert s[|s| - 1] == DigitChar(d);
      PadZeroValue(q, w - 1);
    }
  }

  function Zeros(k: nat): (s: string)
    ensures |s| == k
  {
    if k == 0 then "" else Zeros(k - 1) + "0"
  }

  /** For numbers that fit, the fixed-width rendering is the ECMAScript one:
      the shortest decimal rendering, left-padded with '0' up to width `w`. */
  lemma {:induction false} PadZeroIsPaddedDecimal(n: nat, w: nat)
    requires 1 <= w && n < Pow10(w)
    ensures |NatToDecimal(n)| <= w
    ensures PadZero(n, w) == Zeros(w - |NatToDecimal(n)|) + NatToDecimal(n)
  {
    if n < 10 {
      PadZeroOfZero(w - 1);
      assert n / 10 == 0;
    } else {
      assert n / 10 < Pow10(w - 1);
      PadZeroIsPaddedDecimal(n / 10, w - 1);
    }
  }

  lemma {:induction false} PadZeroOfZero(k: nat)
    ensures PadZero(0, k) == Zeros(k)
  {
    if k > 0 {
      PadZeroOfZero(k - 1);
    }
  }

  /** Rendering the value of a digit string at its own width gives the
      string back. */
  lemma {:induction false} PadZeroOfDigitsValue(ds: string)
    requires AllDigits(ds)
    ensures PadZero(DigitsValue(ds), |ds|) == ds
    decreases |ds|
  {
    if ds != [] {
      var init := ds[..|ds| - 1];
      var n := DigitsValue(ds);
      assert n / 10 == DigitsValue(init) && n % 10 == DigitValue(ds[|ds| - 1]);
      PadZeroOfDigitsValue(init);
      assert DigitChar(n % 10) == ds[|ds| - 1];
      assert ds == init + [ds[|ds| - 1]];
    }
  }

  /** Year, month and day laid out as `YYYY-MM-DD`. */
  function DateText(year: nat, month: nat, day: nat): string {
    PadZero(year, 4) + "-" + PadZero(month, 2) + "-" + PadZero(day, 2)
  }

  datatype DateFields = DateFields(year: nat, month: nat, day: nat)

  /** The three numbers a string of the date shape spells. */
  function ShapeFields(s: string): DateFields
    requires IsIsoDateShape(s)
  {
    DateFields(DigitsValue(s[0..4]), DigitsValue(s[5..7]), DigitsValue(s[8..10]))
  }

  /** Every four-digit year, two-digit month and two-digit day renders to a
      string of the date shape that spells them back. */
  lemma {:induction false} DateTextShape(year: nat, month: nat, day: nat)
    requires year < 10000 && month < 100 && day < 100
    ensures IsIsoDateShape(DateText(year, month, day))
    ensures ShapeFields(DateText(year, month, day)) == DateFields(year, month, day)
  {
    var s := DateText(year, month, day);
    assert s[0..4] == PadZero(year, 4);
    assert s[5..7] == PadZero(month, 2);
    assert s[8..10] == PadZero(day, 2);
    PadZeroValue(year, 4);
    PadZeroValue(month, 2);
    PadZeroValue(day, 2);
  }

  /** Conversely, every string of the date shape is the rendering of the
      fields it spells, so the shape and `DateText` describe the same set. */
  lemma {:induction false} ShapeIsDateText(s: string)
    requires IsIsoDateShape(s)
    ensures var f := ShapeFields(s); DateText(f.year, f.month, f.day) == s
  {
    var y, m, d := s[0..4], s[5..7], s[8..10];
    PadZeroOfDigitsValue(y);
    PadZeroOfDigitsValue(m);
    PadZeroOfDigitsValue(d);
    var f := ShapeFields(s);
    assert DateText(f.year, f.month, f.day) == y + "-" + m + "-" + d;
    ShapeSplits(s);
  }

  lemma {:induction false} ShapeSplits(s: string)
    requires IsIsoDateShape(s)
    ensures s == s[0..4] + "-" + s[5..7] + "-" + s[8..10]
  {
    var t := s[0..4] + "-" + s[5..7] + "-" + s[8..10];
    assert |t| == 10;
    forall i | 0 <= i < 10 ensures t[i] == s[i] {
      if i < 4 { assert t[i] == s[0..4][i]; }
      else if i == 4 { assert t[i] == '-'; }
      else if i < 7 { assert t[i] == s[5..7][i - 5]; }
      else if i == 7 { assert t[i] == '-'; }
      else { assert t[i] == s[8..10][i - 8]; }
    }
  }

  /** A UTC instant broken into the calendar fields `toISOString` prints. */
  datatype Instant = Instant(year: int, month: int, day: int,
                             hour: int, minute: int, second: int, millisecond: int)

  predicate IsLeapYear(y: int) {
    y % 4 == 0 && (y % 100 != 0 || y % 400 == 0)
  }

  function DaysInMonth(y: int, m: int): int
    requires 1 <= m <= 12
  {
    if m == 2 then (if IsLeapYear(y) then 29 else 28)
    else if m == 4 || m == 6 || m == 9 || m == 11 then 30
    else 31
  }

  /** An instant a JavaScript `Date` can hold: its year lies in the range of
      time values (about 273,790 years either side of 1970) and every field
      is in range. */
  predicate ValidInstant(t: Instant) {
    && -271821 <= t.year <= 275760
    && 1 <= t.month <= 12 && 1 <= t.day <= DaysInMonth(t.year, t.month)
    && 0 <= t.hour < 24 && 0 <= t.minute < 60 && 0 <= t.second < 60
    && 0 <= t.millisecond < 1000
  }

  /** Years 0 through 9999 print as four digits; any other year prints in
      the expanded form, a sign and six digits. */
  function YearText(y: int): (s: string)
    requires -999999 <= y <= 999999
    ensures |s| == (if 0 <= y <= 9999 then 4 else 7)
    ensures 0 <= y <= 9999 <==> IsDigit(s[0])
  {
    if 0 <= y <= 9999 then PadZero(y, 4)
    else if y < 0 then "-" + PadZero(-y, 6)
    else "+" + PadZero(y, 6)
  }

  /** `Date.prototype.toISOString`: `YYYY-MM-DDTHH:mm:ss.sssZ`, with the
      expanded year form outside 0..9999. */
  function ToIsoString(t: Instant): (s: string)
    requires ValidInstant(t)
    ensures |s| == (if 0 <= t.year <= 9999 then 24 else 27)
    ensures s[|s| - 1] == 'Z' && s[|s| - 14] == 'T'
  {
    YearText(t.year) + "-" + PadZero(t.month, 2) + "-" + PadZero(t.day, 2)
      + "T" + PadZero(t.hour, 2) + ":" + PadZero(t.minute, 2) + ":" + PadZero(t.second, 2)
      + "." + PadZero(t.millisecond, 3) + "Z"
  }

  /** `getTodayISO` with the clock reading `now` as a parameter: the first
      ten characters of `now.toISOString()`. They have the date shape
      exactly when the year is 0..9999, and then they spell the instant's
      year, month and day. */
  function GetTodayIso(now: Instant): (r: string)
    requires ValidInstant(now)
    ensures |r| == 10
    ensures IsIsoDateShape(r) <==> 0 <= now.year <= 9999
    ensures IsIsoDateShape(r) ==> ShapeFields(r) == DateFields(now.year, now.month, now.day)
  {
    var r := ToIsoString(now)[..10];
    IsoStringDatePrefix(now);
    r
  }

  lemma {:induction false} IsoStringDatePrefix(now: Instant)
    requires ValidInstant(now)
    ensures var r := ToIsoString(now)[..10];
      && (IsIsoDateShape(r) <==> 0 <= now.year <= 9999)
      && (IsIsoDateShape(r) ==> ShapeFields(r) == DateFields(now.year, now.month, now.day))
  {
    var r := ToIsoString(now)[..10];
    if 0 <= now.year <= 9999 {
      assert r == DateText(now.year, now.month, now.day);
      DateTextShape(now.year, now.month, now.day);
    } else {
      assert r[0] == YearText(now.year)[0];
    }
  }
}
