/** The amount column of a statement row: the cleaner that keeps only digits, `.` and
    `-`, and the conversion of the cleaned text to whole cents as
    `Math.round(parseFloat(clean) * 100)` computes it on exact decimals. */
module Amounts {
  import opened Wrappers
  import opened Text
  import opened Sequences

  /** The characters the pattern `[^\d.-]` does not remove. */
  predicate IsAmountChar(c: char) {
    IsDigit(c) || c == '.' || c == '-'
  }

  predicate IsCleaned(s: string) {
    forall i :: 0 <= i < |s| ==> IsAmountChar(s[i])
  }

  /** `replace(/[^\d.-]/g, "")`: every other character is dropped. */
  function CleanAmount(s: string): (r: string)
    ensures IsCleaned(r) && |r| <= |s|
  {
    if s == [] then []
    else if IsAmountChar(s[0]) then [s[0]] + CleanAmount(s[1..])
    else CleanAmount(s[1..])
  }

  /** The cleaner keeps every digit, `.` and `-` of the input, as often as it occurs
      there and in the same order, and nothing else. */
  lemma {:induction false} CleanAmountKeeps(s: string)
    ensures IsSubsequence(CleanAmount(s), s)
    ensures forall c :: multiset(CleanAmount(s))[c] == if IsAmountChar(c) then multiset(s)[c] else 0
  {
    if s != [] {
      CleanAmountKeeps(s[1..]);
      assert s == [s[0]] + s[1..];
      assert multiset(s) == multiset{s[0]} + multiset(s[1..]);
    }
  }

  /** A cleaned text is left as it is. */
  lemma {:induction false} CleanedUnchanged(s: string)
    requires IsCleaned(s)
    ensures CleanAmount(s) == s
  {
    if s != [] {
      CleanedUnchanged(s[1..]);
      assert s == [s[0]] + s[1..];
    }
  }

  /** Cleaning twice is cleaning once. */
  lemma CleanAmountIdempotent(s: string)
    ensures CleanAmount(CleanAmount(s)) == CleanAmount(s)
  {
    CleanedUnchanged(CleanAmount(s));
  }

  /** The cleaner works character by character: cleaning a concatenation is
      concatenating the cleaned parts. */
  lemma {:induction false} CleanAmountAppend(a: string, b: string)
    ensures CleanAmount(a + b) == CleanAmount(a) + CleanAmount(b)
  {
    if a == [] {
      assert a + b == b;
    } else {
      assert (a + b)[0] == a[0] && (a + b)[1..] == a[1..] + b;
      CleanAmountAppend(a[1..], b);
    }
  }

  /** The result of the conversion: whole cents, or NaN when `parseFloat` finds no
      number at the start of the cleaned text. NaN is not `undefined`, so such a row is
      kept with a NaN amount. */
  datatype Amount = Cents(cents: int) | NotANumber

  /** The length of the run of digits at the start of `s`. */
  function DigitRun(s: string): (n: nat)
    ensures n <= |s| && AllDigits(s[..n])
    ensures n < |s| ==> !IsDigit(s[n])
  {
    if s == [] || !IsDigit(s[0]) then 0
    else
      var n := 1 + DigitRun(s[1..]);
      assert forall i :: 1 <= i < n ==> s[..n][i] == s[1..][..n - 1][i - 1];
      n
  }

  function Pow10(k: nat): (p: nat)
    ensures p >= 1
  {
    if k == 0 then 1 else 10 * Pow10(k - 1)
  }

  /** `Math.round(x * 100)` for `x = n / 10^k`, negated when `negative`: the nearest
      whole number of cents, a half rounding up towards positive infinity. */
  function RoundCents(negative: bool, n: nat, k: nat): (r: int)
    ensures var x: int := if negative then -(n as int) else n;
      2 * Pow10(k) * r - Pow10(k) <= 200 * x < 2 * Pow10(k) * r + Pow10(k)
  {
    var x: int := if negative then -(n as int) else n;
    var p := Pow10(k);
    var r := (200 * x + p) / (2 * p);
    DivBounds(200 * x + p, 2 * p);
    r
  }

  lemma DivBounds(a: int, b: int)
    requires b > 0
    ensures b * (a / b) <= a < b * (a / b) + b
  {
  }

  /** The decimal number `parseFloat` reads from the start of a cleaned text: an
      optional sign, then digits with an optional `.` and fraction digits, at least
      one digit in all; a cleaned text has no exponent and no `Infinity`. */
  datatype Decimal = Decimal(negative: bool, intDigits: string, fracDigits: string)

  /** The text starts with a digit, or with `.` and a digit: `parseFloat` reads a
      number from it (after a sign). */
  predicate StartsNumber(t: string) {
    (t != [] && IsDigit(t[0])) || (|t| > 1 && t[0] == '.' && IsDigit(t[1]))
  }

  /** The longest prefix of the cleaned text that is a decimal literal, if any: the
      sign ends at `sign`, the integer digits at `e`, and the fraction digits, after a
      `.`, run for `j` characters. */
  function DecimalPrefix(s: string): (r: Option<Decimal>)
    requires IsCleaned(s)
    ensures r.Some? ==> AllDigits(r.value.intDigits) && AllDigits(r.value.fracDigits)
    ensures r.Some? ==> |r.value.intDigits| + |r.value.fracDigits| > 0
    ensures r.Some? ==> StartsWith(s, Render(r.value))
    ensures r.None? <==> !StartsNumber(if s != [] && s[0] == '-' then s[1..] else s)
    ensures r.Some? ==> var n := |Render(r.value)|;
      n < |s| ==> !IsDigit(s[n]) && (r.value.fracDigits == [] ==> !StartsNumber(s[n..]))
  {
    var sign := if s != [] && s[0] == '-' then 1 else 0;
    var i := DigitRun(s[sign..]);
    var e := sign + i;
    var j := if e < |s| && s[e] == '.' then DigitRun(s[e + 1..]) else 0;
    PrefixEnds(s, sign, i, j);
    if i + j == 0 then None
    else
      ReadDecimal(s, sign, i, j);
      Some(DecimalAt(s, sign, i, j))
  }

  /** The decimal whose sign ends at `sign`, whose integer digits run for `i`
      characters, and whose fraction digits, after a `.`, run for `j`. */
  function DecimalAt(s: string, sign: nat, i: nat, j: nat): Decimal
    requires sign + i <= |s| && (j > 0 ==> sign + i + 1 + j <= |s|)
  {
    Decimal(sign == 1, s[sign..sign + i], if j == 0 then [] else s[sign + i + 1..sign + i + 1 + j])
  }

  /** The decimal read: its digit fields, its rendering as a prefix of the text, and
      where the reading stops. */
  lemma ReadDecimal(s: string, sign: nat, i: nat, j: nat)
    requires sign == if s != [] && s[0] == '-' then 1 else 0
    requires i == DigitRun(s[sign..])
    requires j == if sign + i < |s| && s[sign + i] == '.' then DigitRun(s[sign + i + 1..]) else 0
    requires i + j > 0
    ensures sign + i <= |s| && (j > 0 ==> sign + i + 1 + j <= |s|)
    ensures AllDigits(DecimalAt(s, sign, i, j).intDigits) && AllDigits(DecimalAt(s, sign, i, j).fracDigits)
    ensures |DecimalAt(s, sign, i, j).intDigits| + |DecimalAt(s, sign, i, j).fracDigits| > 0
    ensures StartsWith(s, Render(DecimalAt(s, sign, i, j)))
    ensures |Render(DecimalAt(s, sign, i, j))| == sign + i + (if j == 0 then 0 else 1 + j)
  {
    var e := sign + i;
    var d := DecimalAt(s, sign, i, j);
    DigitSlice(s, sign, i);
    assert d.intDigits == s[sign..e];
    if j > 0 {
      DigitSlice(s, e + 1, j);
      assert d.fracDigits == s[e + 1..e + 1 + j];
      assert AllDigits(d.fracDigits);
    } else {
      assert d.fracDigits == [];
      assert AllDigits(d.fracDigits);
    }
    RenderPrefix(s, sign, e, j);
  }

  /** The digit run read from position `from` is a slice of digits of the text. */
  lemma DigitSlice(s: string, from: nat, n: nat)
    requires from <= |s| && n == DigitRun(s[from..])
    ensures from + n <= |s| && AllDigits(s[from..from + n])
  {
    assert s[from..][..n] == s[from..from + n];
  }

  /** Where `parseFloat`'s reading starts and stops: it reads something exactly when a
      digit, or a `.` and a digit, follows the optional sign; and it stops before a
      digit, and, with no fraction read, before a `.` and a digit. */
  lemma PrefixEnds(s: string, sign: nat, i: nat, j: nat)
    requires sign == if s != [] && s[0] == '-' then 1 else 0
    requires i == DigitRun(s[sign..])
    requires j == if sign + i < |s| && s[sign + i] == '.' then DigitRun(s[sign + i + 1..]) else 0
    ensures i + j == 0 <==> !StartsNumber(if s != [] && s[0] == '-' then s[1..] else s)
    ensures var n := sign + i + (if j == 0 then 0 else 1 + j);
      n <= |s| && (n < |s| ==> !IsDigit(s[n]) && (j == 0 ==> !StartsNumber(s[n..])))
  {
    var t := s[sign..];
    assert t == if s != [] && s[0] == '-' then s[1..] else s;
    var e := sign + i;
    if i == 0 && e < |s| {
      assert t[0] == s[e];
      if 1 < |t| {
        assert s[e + 1..][0] == t[1];
      }
    }
    if e < |s| {
      assert s[e] == t[i];
      if s[e] == '.' && e + 1 < |s| {
        assert s[e + 1..][0] == s[e + 1];
      }
    }
    if j > 0 && e + 1 + j < |s| {
      assert s[e + 1 + j] == s[e + 1..][j];
    }
  }

  /** The pieces the decimal is read from are consecutive slices of the text. */
  lemma RenderPrefix(s: string, sign: nat, e: nat, j: nat)
    requires sign <= 1 && sign <= e <= |s| && (sign == 1 ==> s[0] == '-')
    requires j > 0 ==> e + 1 + j <= |s| && s[e] == '.'
    ensures StartsWith(s, Render(Decimal(sign == 1, s[sign..e], if j == 0 then [] else s[e + 1..e + 1 + j])))
  {
    var signText: string := if sign == 1 then "-" else "";
    assert signText == s[..sign] by {
      if sign == 1 {
        assert s[..1] == [s[0]];
      }
    }
    assert s[..sign] + s[sign..e] == s[..e];
    if j > 0 {
      assert s[..e] + ("." + s[e + 1..e + 1 + j]) == s[..e + 1 + j];
    }
  }

  /** The text of a decimal literal. */
  function Render(d: Decimal): string {
    (if d.negative then "-" else "") + d.intDigits + (if d.fracDigits == [] then "" else "." + d.fracDigits)
  }

  /** The amount step of `parseCSVRow`: nothing when the cleaned text is empty (the
      caller then fails), otherwise `Math.round(parseFloat(clean) * 100)`. */
  function ToCents(clean: string): (r: Option<Amount>)
    requires IsCleaned(clean)
    ensures r.None? <==> clean == []
    ensures r == Some(NotANumber) <==> clean != [] && DecimalPrefix(clean).None?
  {
    if clean == [] then None
    else match DecimalPrefix(clean)
      case None => Some(NotANumber)
      case Some(d) =>
        Some(Cents(RoundCents(d.negative, DigitsValue(d.intDigits + d.fracDigits), |d.fracDigits|)))
  }

  /** With at most two fraction digits the rounding has nothing to round. */
  lemma RoundCentsExact(negative: bool, m: nat, k: nat)
    requires k <= 2
    ensures var n := m * Pow10(2 - k);
      RoundCents(negative, m, k) == if negative then -n else n
  {
    var x: int := if negative then -(m as int) else m;
    var r := RoundCents(negative, m, k);
    assert Pow10(1) == 10 && Pow10(2) == 100;
    if k == 0 {
      RoundUnique(r, 100 * x, 1, x);
    } else if k == 1 {
      RoundUnique(r, 10 * x, 10, x);
    } else {
      RoundUnique(r, x, 100, x);
    }
  }

  /** With at most two fraction digits the conversion to cents is exact. */
  lemma ToCentsExact(clean: string)
    requires IsCleaned(clean)
    requires DecimalPrefix(clean).Some? && |DecimalPrefix(clean).value.fracDigits| <= 2
    ensures var d := DecimalPrefix(clean).value;
      var n := DigitsValue(d.intDigits + d.fracDigits) * Pow10(2 - |d.fracDigits|);
      ToCents(clean) == Some(Cents(if d.negative then -n else n))
  {
    var d := DecimalPrefix(clean).value;
    RoundCentsExact(d.negative, DigitsValue(d.intDigits + d.fracDigits), |d.fracDigits|);
  }

  /** Only one whole number lies within half a unit of `200 x / 2p` when it is a whole
      number itself. */
  lemma RoundUnique(r: int, y: int, p: nat, x: int)
    requires p >= 1
    requires 2 * p * r - p <= 200 * x < 2 * p * r + p
    requires 200 * x == 2 * p * y
    ensures r == y
  {
    var q := 2 * p;
    assert q * r - q * y == q * (r - y);
    if r - y >= 1 {
      assert false;
    } else if y - r >= 1 {
      assert false;
    }
  }

  /** The conversion of a raw amount column. */
  function ParseAmount(amountStr: string): (r: Option<Amount>)
    ensures r.None? <==> forall i :: 0 <= i < |amountStr| ==> !IsAmountChar(amountStr[i])
    ensures r == Some(NotANumber) <==>
      CleanAmount(amountStr) != [] && DecimalPrefix(CleanAmount(amountStr)).None?
  {
    CleanAmountKeeps(amountStr);
    ToCents(CleanAmount(amountStr))
  }

  /** The decimal read from the cleaned text "1234.56". */
  lemma DecimalOfDollars()
    ensures DecimalPrefix("1234.56") == Some(Decimal(false, "1234", "56"))
  {
    var clean := "1234.56";
    assert clean[0..] == clean && clean[1..] == "234.56" && clean[2..] == "34.56";
    assert clean[3..] == "4.56" && clean[4..] == ".56" && clean[5..] == "56";
    assert "56"[1..] == "6" && "6"[1..] == "";
    assert DigitRun(".56") == 0 && DigitRun("56") == 2;
    assert DigitRun(clean) == 4;
    assert clean[0..4] == "1234" && clean[5..7] == "56";
  }

  /** The cents of the cleaned text "1234.56". */
  lemma CentsOfDollars()
    ensures ToCents("1234.56") == Some(Cents(123456))
  {
    DecimalOfDollars();
    ToCentsExact("1234.56");
    DigitsOfDollars();
  }

  lemma DigitsOfDollars()
    ensures DigitsValue("1234" + "56") == 123456
  {
    assert "1234" + "56" == "123456";
    assert "123456"[..5] == "12345" && "12345"[..4] == "1234" && "1234"[..3] == "123";
    assert "123"[..2] == "12" && "12"[..1] == "1" && "1"[..0] == "";
    assert DigitsValue("1") == 1;
    assert DigitsValue("12") == 12;
    assert DigitsValue("123") == 123;
    assert DigitsValue("1234") == 1234;
    assert DigitsValue("12345") == 12345;
  }

  /** The decimal read from the cleaned text "-45.00". */
  lemma DecimalOfNegative()
    ensures DecimalPrefix("-45.00") == Some(Decimal(true, "45", "00"))
  {
    var clean := "-45.00";
    assert clean[1..] == "45.00" && clean[2..] == "5.00" && clean[3..] == ".00" && clean[4..] == "00";
    assert "00"[1..] == "0" && "0"[1..] == "";
    assert DigitRun("00") == 2 && DigitRun(".00") == 0;
    assert DigitRun(clean[1..]) == 2;
    assert clean[1..3] == "45" && clean[4..6] == "00";
  }

  /** The cents of the cleaned text "-45.00". */
  lemma CentsOfNegative()
    ensures ToCents("-45.00") == Some(Cents(-4500))
  {
    DecimalOfNegative();
    ToCentsExact("-45.00");
    DigitsOfFortyFive();
  }

  /** The decimal read from the cleaned text "45.00". */
  lemma DecimalOfPositive()
    ensures DecimalPrefix("45.00") == Some(Decimal(false, "45", "00"))
  {
    var clean := "45.00";
    assert clean[0..] == clean && clean[1..] == "5.00" && clean[2..] == ".00" && clean[3..] == "00";
    assert "00"[1..] == "0" && "0"[1..] == "";
    assert DigitRun("00") == 2 && DigitRun(".00") == 0;
    assert DigitRun(clean) == 2;
    assert clean[0..2] == "45" && clean[3..5] == "00";
  }

  /** The cents of the cleaned text "45.00". */
  lemma CentsOfPositive()
    ensures ToCents("45.00") == Some(Cents(4500))
  {
    DecimalOfPositive();
    ToCentsExact("45.00");
    DigitsOfFortyFive();
  }

  lemma DigitsOfFortyFive()
    ensures DigitsValue("45" + "00") == 4500
  {
    assert "45" + "00" == "4500";
    assert "4500"[..3] == "450" && "450"[..2] == "45" && "45"[..1] == "4" && "4"[..0] == "";
    assert DigitsValue("4") == 4;
    assert DigitsValue("45") == 45;
    assert DigitsValue("450") == 450;
  }

  /** Currency signs and thousands separators are dropped. */
  lemma ParseAmountDollars()
    ensures ParseAmount("$1,234.56") == Some(Cents(123456))
  {
    CleanOfDollars();
    CentsOfDollars();
  }

  lemma CleanOfDollars()
    ensures CleanAmount("$1,234.56") == "1234.56"
  {
    DollarsPieces();
    CleanAmountAppend("$1,", "234.56");
    CleanedUnchanged("234.56");
  }

  lemma DollarsPieces()
    ensures "$1,234.56" == "$1," + "234.56" && "1234.56" == "1" + "234.56"
    ensures CleanAmount("$1,") == "1"
  {
  }

  /** A minus sign is kept. */
  lemma ParseAmountMinus()
    ensures ParseAmount("-45.00") == Some(Cents(-4500))
  {
    CleanOfMinus();
    CentsOfNegative();
  }

  lemma CleanOfMinus()
    ensures CleanAmount("-45.00") == "-45.00"
  {
    CleanedUnchanged("-45.00");
  }

  /** Parentheses are dropped and do not make the amount negative. */
  lemma ParseAmountParentheses()
    ensures ParseAmount("(45.00)") == Some(Cents(4500))
  {
    CleanOfParentheses();
    CentsOfPositive();
  }

  lemma CleanOfParentheses()
    ensures CleanAmount("(45.00)") == "45.00"
  {
    ParenthesesPieces();
    CleanAmountAppend("(45.00", ")");
    CleanAmountAppend("(", "45.00");
    CleanedUnchanged("45.00");
  }

  lemma ParenthesesPieces()
    ensures "(45.00)" == "(45.00" + ")" && "(45.00" == "(" + "45.00"
    ensures CleanAmount("(") == [] && CleanAmount(")") == []
  {
  }

  /** A lone minus sign is not a number, and a text with no digit, `.` or `-` gives
      nothing. */
  lemma ParseAmountNoNumber()
    ensures ParseAmount("-") == Some(NotANumber)
    ensures ParseAmount("n/a") == None
  {
    var sign := CleanAmount("-");
    assert sign == "-";
    assert "-"[1..] == "";
    var none := CleanAmount("n/a");
    assert none == "";
  }
}
