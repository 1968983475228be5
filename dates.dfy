/** The date column of a statement row: the two regular-expression formats the parser
    recognises, the day-first branch behind them, and the generic fallback. */
module Dates {
  import opened Wrappers
  import opened Text

  /** A date as the arguments given to `new Date(year, monthIndex, day)`; month index
      0 is January. Out-of-range components are kept as given. */
  datatype Date = Date(year: int, monthIndex: int, day: int)

  /** The text splits as `a` digits, `/`, `b` digits, `/`, four digits. */
  predicate SlashShape(s: string, a: nat, b: nat) {
    |s| == a + b + 6 && s[a] == '/' && s[a + 1 + b] == '/' &&
    AllDigits(s[..a]) && AllDigits(s[a + 1..a + 1 + b]) && AllDigits(s[a + b + 2..])
  }

  /** `^(\d{1,2})\/(\d{1,2})\/(\d{4})$`: the three captured fields, if the text matches. */
  function SlashFields(s: string): (r: Option<(string, string, string)>)
    ensures r.Some? ==>
      var (f1, f2, f3) := r.value;
      1 <= |f1| <= 2 && 1 <= |f2| <= 2 && |f3| == 4 &&
      AllDigits(f1) && AllDigits(f2) && AllDigits(f3) && s == f1 + "/" + f2 + "/" + f3
  {
    if SlashShape(s, 1, 1) then Some(SlashSplit(s, 1, 1))
    else if SlashShape(s, 1, 2) then Some(SlashSplit(s, 1, 2))
    else if SlashShape(s, 2, 1) then Some(SlashSplit(s, 2, 1))
    else if SlashShape(s, 2, 2) then Some(SlashSplit(s, 2, 2))
    else None
  }

  function SlashSplit(s: string, a: nat, b: nat): (r: (string, string, string))
    requires SlashShape(s, a, b)
    ensures s == r.0 + "/" + r.1 + "/" + r.2
    ensures |r.0| == a && |r.1| == b && |r.2| == 4
  {
    var r := (s[..a], s[a + 1..a + 1 + b], s[a + b + 2..]);
    assert s == r.0 + "/" + r.1 + "/" + r.2;
    r
  }

  /** Every text of the form `m/d/yyyy` with one or two digits in `m` and `d` matches,
      with exactly those fields. */
  lemma SlashFieldsOf(f1: string, f2: string, f3: string)
    requires 1 <= |f1| <= 2 && 1 <= |f2| <= 2 && |f3| == 4
    requires AllDigits(f1) && AllDigits(f2) && AllDigits(f3)
    ensures SlashFields(f1 + "/" + f2 + "/" + f3) == Some((f1, f2, f3))
  {
    var s := f1 + "/" + f2 + "/" + f3;
    var a, b := |f1|, |f2|;
    SlashPieces(f1, f2, f3);
    assert SlashShape(s, a, b);
    if a == 2 {
      assert !SlashShape(s, 1, 1) && !SlashShape(s, 1, 2) by {
        assert IsDigit(s[1]);
      }
    } else if b == 2 {
      assert !SlashShape(s, 1, 1) by {
        assert IsDigit(s[3]);
      }
    }
  }

  lemma SlashPieces(f1: string, f2: string, f3: string)
    ensures var s := f1 + "/" + f2 + "/" + f3;
      var a, b := |f1|, |f2|;
      s[a] == '/' && s[a + 1 + b] == '/' &&
      s[..a] == f1 && s[a + 1..a + 1 + b] == f2 && s[a + b + 2..] == f3
  {
    var s := f1 + "/" + f2 + "/" + f3;
    var a, b := |f1|, |f2|;
    assert s[..a] == f1;
    assert s[a + 1..a + 1 + b] == f2;
    assert s[a + b + 2..] == f3;
  }

  /** `^(\d{4})-(\d{2})-(\d{2})$`: the year, month and day fields, if the text matches. */
  function IsoFields(s: string): (r: Option<(string, string, string)>)
    ensures r.Some? ==>
      var (y, m, d) := r.value;
      |y| == 4 && |m| == 2 && |d| == 2 &&
      AllDigits(y) && AllDigits(m) && AllDigits(d) && s == y + "-" + m + "-" + d
  {
    if |s| == 10 && s[4] == '-' && s[7] == '-' && AllDigits(s[..4]) && AllDigits(s[5..7]) && AllDigits(s[8..]) then
      var r := (s[..4], s[5..7], s[8..]);
      assert s == r.0 + "-" + r.1 + "-" + r.2;
      Some(r)
    else None
  }

  /** Every text of the form `yyyy-mm-dd` matches, with exactly those fields. */
  lemma IsoFieldsOf(y: string, m: string, d: string)
    requires |y| == 4 && |m| == 2 && |d| == 2
    requires AllDigits(y) && AllDigits(m) && AllDigits(d)
    ensures IsoFields(y + "-" + m + "-" + d) == Some((y, m, d))
  {
    var s := y + "-" + m + "-" + d;
    assert s[..4] == y && s[5..7] == m && s[8..] == d;
  }

  /** The "DD/MM/YYYY" branch of `parseDate`: the day-first reading of `d/m/yyyy`,
      used only when the day is above 12. */
  function DayFirst(s: string): Option<Date> {
    match SlashFields(s)
    case Some((d, m, y)) =>
      if DigitsValue(d) > 12 then Some(Date(DigitsValue(y), DigitsValue(m) - 1, DigitsValue(d))) else None
    case None => None
  }

  /** `parseDate`: nothing for an empty text; `m/d/yyyy`; then `yyyy-mm-dd`; then the
      day-first branch; then the generic `new Date(text)` fallback, given here as a
      function that yields nothing for an invalid date. */
  function ParseDate(dateStr: string, fallback: string -> Option<Date>): (r: Option<Date>)
    ensures dateStr == [] ==> r == None
  {
    if dateStr == [] then None
    else match SlashFields(dateStr)
      case Some((m, d, y)) => Some(Date(DigitsValue(y), DigitsValue(m) - 1, DigitsValue(d)))
      case None =>
        match IsoFields(dateStr)
        case Some((y, m, d)) => Some(Date(DigitsValue(y), DigitsValue(m) - 1, DigitsValue(d)))
        case None =>
          match DayFirst(dateStr)
          case Some(date) => Some(date)
          case None => fallback(dateStr)
  }

  /** Every `m/d/yyyy` text is read month first, whatever the fallback, even when the
      day field is above 12 or the month field is. */
  lemma {:induction false} ParseDateMonthFirst(m: string, d: string, y: string, fallback: string -> Option<Date>)
    requires 1 <= |m| <= 2 && 1 <= |d| <= 2 && |y| == 4
    requires AllDigits(m) && AllDigits(d) && AllDigits(y)
    ensures ParseDate(m + "/" + d + "/" + y, fallback) ==
      Some(Date(DigitsValue(y), DigitsValue(m) - 1, DigitsValue(d)))
  {
    var s := m + "/" + d + "/" + y;
    SlashFieldsOf(m, d, y);
    assert SlashFields(s).value == (m, d, y);
    ParseDateOfSlash(s, fallback);
  }

  lemma ParseDateOfSlash(s: string, fallback: string -> Option<Date>)
    requires SlashFields(s).Some?
    ensures var (m, d, y) := SlashFields(s).value;
      ParseDate(s, fallback) == Some(Date(DigitsValue(y), DigitsValue(m) - 1, DigitsValue(d)))
  {
  }

  /** Every `yyyy-mm-dd` text is read with its fields taken as they are, whatever the
      fallback. */
  lemma {:induction false} ParseDateIso(y: string, m: string, d: string, fallback: string -> Option<Date>)
    requires |y| == 4 && |m| == 2 && |d| == 2
    requires AllDigits(y) && AllDigits(m) && AllDigits(d)
    ensures ParseDate(y + "-" + m + "-" + d, fallback) ==
      Some(Date(DigitsValue(y), DigitsValue(m) - 1, DigitsValue(d)))
  {
    var s := y + "-" + m + "-" + d;
    IsoFieldsOf(y, m, d);
    assert IsoFields(s).value == (y, m, d);
    ParseDateOfIso(s, fallback);
  }

  lemma ParseDateOfIso(s: string, fallback: string -> Option<Date>)
    requires IsoFields(s).Some?
    ensures var (y, m, d) := IsoFields(s).value;
      ParseDate(s, fallback) == Some(Date(DigitsValue(y), DigitsValue(m) - 1, DigitsValue(d)))
  {
    IsoIsNotSlash(s);
  }

  /** No text matches both formats: an ISO text has a digit where the only slash
      format of its length has a slash. */
  lemma IsoIsNotSlash(s: string)
    requires IsoFields(s).Some?
    ensures SlashFields(s) == None
  {
    assert s[..4][2] == s[2];
    assert !SlashShape(s, 2, 2);
  }

  /** The day-first branch never decides: a text it could read has already been read
      month first, so every other text goes to the fallback. */
  lemma DayFirstUnreachable(s: string, fallback: string -> Option<Date>)
    requires s != [] && SlashFields(s).None? && IsoFields(s).None?
    ensures DayFirst(s) == None
    ensures ParseDate(s, fallback) == fallback(s)
  {
  }
}
