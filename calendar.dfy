/**
 Calendar dates as Python's `datetime.date` holds them: what `strptime(t, '%Y-%m-%d')` accepts
 for a token of the shape `DDDD-DD-DD`, and the zero-padded decimal forms used by the
 `'%Y-%m-%d'` and `{month:02d}` formats.
 */
module Calendar {
  import opened Text

  datatype Date = Date(year: int, month: int, day: int)

  predicate IsLeapYear(y: int) {
    y % 4 == 0 && (y % 100 != 0 || y % 400 == 0)
  }

  function DaysInMonth(y: int, m: int): (n: int)
    requires 1 <= m <= 12
    ensures 28 <= n <= 31
    ensures n == 31 <==> m in {1, 3, 5, 7, 8, 10, 12}
    ensures n == 30 <==> m in {4, 6, 9, 11}
    ensures n == 29 <==> m == 2 && IsLeapYear(y)
  {
    if m == 2 then (if IsLeapYear(y) then 29 else 28)
    else if m in {4, 6, 9, 11} then 30
    else 31
  }

  /** A date `datetime.date` can represent: years 1 to 9999 of the proleptic Gregorian calendar. */
  predicate ValidDate(d: Date) {
    1 <= d.year <= 9999 && 1 <= d.month <= 12 && 1 <= d.day <= DaysInMonth(d.year, d.month)
  }

  // ---------------------------------------------------------------------------------------
  // Decimal digits (ASCII only)

  predicate IsDigit(c: char) {
    '0' <= c <= '9'
  }

  predicate AllDigits(s: string) {
    forall k :: 0 <= k < |s| ==> IsDigit(s[k])
  }

  function DigitChar(n: nat): (c: char)
    requires n < 10
    ensures IsDigit(c) && c as int - '0' as int == n
  {
    ('0' as int + n) as char
  }

  /** The number a string of decimal digits denotes. */
  function Value(s: string): nat
    requires AllDigits(s)
  {
    if s == [] then 0 else 10 * Value(s[..|s| - 1]) + (s[|s| - 1] as int - '0' as int)
  }

  function Pow10(w: nat): (p: nat)
    ensures p >= 1
  {
    if w == 0 then 1 else 10 * Pow10(w - 1)
  }

  /** `n` written with exactly `w` digits, zero-padded on the left (the `0Nd` format). */
  function PadDigits(n: nat, w: nat): (r: string)
    requires n < Pow10(w)
    ensures |r| == w && AllDigits(r) && Value(r) == n
  {
    if w == 0 then []
    else
      var r := PadDigits(n / 10, w - 1) + [DigitChar(n % 10)];
      assert r[..|r| - 1] == PadDigits(n / 10, w - 1);
      r
  }

  /** Every digit string is the padded form of the number it denotes. */
  lemma {:induction false} PadValue(s: string)
    requires AllDigits(s)
    ensures Value(s) < Pow10(|s|)
    ensures PadDigits(Value(s), |s|) == s
  {
    if s != [] {
      var init := s[..|s| - 1];
      var b := s[|s| - 1] as int - '0' as int;
      PadValue(init);
      LastDigit(Value(init), b);
      assert DigitChar(b) == s[|s| - 1];
      assert s == init + [s[|s| - 1]];
    }
  }

  lemma LastDigit(a: nat, b: nat)
    requires b < 10
    ensures (10 * a + b) / 10 == a && (10 * a + b) % 10 == b
  {
  }

  /** `str(n)`: the decimal form of `n` without leading zeros. */
  function Decimal(n: nat): (r: string)
    ensures |r| >= 1 && AllDigits(r) && Value(r) == n
    ensures r[0] == '0' ==> n == 0
  {
    if n < 10 then [DigitChar(n)]
    else
      var r := Decimal(n / 10) + [DigitChar(n % 10)];
      assert r[..|r| - 1] == Decimal(n / 10);
      r
  }

  // ---------------------------------------------------------------------------------------
  // Date tokens

  /** The shape `\d{4}-\d{2}-\d{2}`. */
  predicate IsDateShape(t: string) {
    && |t| == 10
    && AllDigits(t[0..4]) && t[4] == '-' && AllDigits(t[5..7]) && t[7] == '-' && AllDigits(t[8..10])
  }

  /** `YYYY-MM-DD` with every field zero-padded. */
  function DateToken(d: Date): (t: string)
    requires 0 <= d.year < 10000 && 0 <= d.month < 100 && 0 <= d.day < 100
    ensures IsDateShape(t)
    ensures Value(t[0..4]) == d.year && Value(t[5..7]) == d.month && Value(t[8..10]) == d.day
  {
    var t := PadDigits(d.year, 4) + "-" + PadDigits(d.month, 2) + "-" + PadDigits(d.day, 2);
    assert t[0..4] == PadDigits(d.year, 4) && t[5..7] == PadDigits(d.month, 2) && t[8..10] == PadDigits(d.day, 2);
    t
  }

  /** `datetime.strptime(t, '%Y-%m-%d').date()` for a token of the date shape: the date it names,
      or `None` where the call raises `ValueError` (year 0000, month outside 01-12, a day past
      the end of its month). */
  function ParseDate(t: string): (r: Option<Date>)
    ensures r.Some? ==> ValidDate(r.value) && DateToken(r.value) == t
    ensures forall d :: ValidDate(d) && DateToken(d) == t ==> r == Some(d)
  {
    if !IsDateShape(t) then None
    else
      var d := Date(Value(t[0..4]), Value(t[5..7]), Value(t[8..10]));
      FieldsToken(t);
      if ValidDate(d) then Some(d) else None
  }

  lemma FieldsToken(t: string)
    requires IsDateShape(t)
    ensures Value(t[0..4]) < 10000 && Value(t[5..7]) < 100 && Value(t[8..10]) < 100
    ensures DateToken(Date(Value(t[0..4]), Value(t[5..7]), Value(t[8..10]))) == t
  {
    PadValue(t[0..4]);
    PadValue(t[5..7]);
    PadValue(t[8..10]);
    assert t == t[0..4] + "-" + t[5..7] + "-" + t[8..10];
  }

  // ---------------------------------------------------------------------------------------
  // Month names

  const MonthNames: seq<string> := ["January", "February", "March", "April", "May", "June",
                                    "July", "August", "September", "October", "November", "December"]

  function MonthName(m: int): string
    requires 1 <= m <= 12
  {
    MonthNames[m - 1]
  }
}
