/** The statement parser from the header-keyed rows onward: which rows are admitted,
    how one row becomes a transaction candidate, and what makes the whole parse fail;
    with the validity check and the date range of a list of candidates. */
module TransactionParser {
  import opened Wrappers
  import opened Text
  import opened Categories
  import opened Amounts
  import opened Dates
  import opened Merchant
  import opened Sequences

  /** One CSV row, keyed by the header line's column names. */
  type Row = map<string, string>

  /** `row.Key?.trim()`; a missing column reads as the empty text, which every use
      treats as it treats `undefined`. */
  function Column(row: Row, key: string): string {
    if key in row then Trim(row[key]) else ""
  }

  /** A transaction candidate as a parsed row yields it. */
  datatype ParsedTransaction = ParsedTransaction(
    date: Date,
    description: string,
    amount: Amount,
    merchant: string,
    category: Category,
    categoryConfirmed: bool)

  /** Why a row fails; either one rejects the whole parse. */
  datatype RowError = InvalidDateFormat(dateStr: string) | InvalidAmount(amountStr: string)

  function Message(e: RowError): string {
    match e
    case InvalidDateFormat(s) => "Invalid date format: " + s
    case InvalidAmount(s) => "Invalid amount: " + s
  }

  /** The admission test of `parseCSV`: the row has a `Date` column that is neither blank nor the header
      word itself. */
  predicate Admitted(row: Row) {
    "Date" in row && row["Date"] != "" && Trim(row["Date"]) != "Date" && |Trim(row["Date"])| > 0 && |row| > 0
  }

  /** Admission depends only on the trimmed `Date` column. */
  lemma AdmittedIff(row: Row)
    ensures Admitted(row) <==> Column(row, "Date") != "" && Column(row, "Date") != "Date"
  {
    if "Date" in row && row["Date"] == "" {
      assert Trim(row["Date"]) == "";
    }
    if "Date" in row {
      assert row["Date"] in row.Values;
    }
  }

  /** The type words that get no prefix. */
  predicate Unprefixed(typ: string) {
    typ == "" || typ == "Deposits" || typ == "Debit Card" || typ == "Account Transfers"
  }

  /** The description step of `parseCSVRow`: the description, defaulting to "Unknown", with a "Check #n: " prefix
      for numbered checks and a "<Type>: " prefix for other types that are not
      deposits, debit card payments or account transfers. */
  function BuildDescription(typ: string, descriptionStr: string, checkNum: string): (r: string)
    ensures var base := if descriptionStr == "" then "Unknown" else descriptionStr;
      r != [] && |base| <= |r| && r[|r| - |base|..] == base &&
      (r == base <==> Unprefixed(typ))
  {
    var base := if descriptionStr == "" then "Unknown" else descriptionStr;
    if typ != "" && typ != "Deposits" then
      if typ == "Checks" && checkNum != "" then "Check #" + checkNum + ": " + base
      else if typ != "Debit Card" && typ != "Account Transfers" then typ + ": " + base
      else base
    else base
  }

  /** The prefix the description gets, case by case. */
  lemma BuildDescriptionPrefix(typ: string, descriptionStr: string, checkNum: string)
    ensures var base := if descriptionStr == "" then "Unknown" else descriptionStr;
      var r := BuildDescription(typ, descriptionStr, checkNum);
      (typ == "Checks" && checkNum != "" ==> r == "Check #" + checkNum + ": " + base) &&
      (!Unprefixed(typ) && !(typ == "Checks" && checkNum != "") ==> r == typ + ": " + base) &&
      (Unprefixed(typ) ==> r == base)
  {
  }

  /** A check without a number is prefixed with its type like any other. */
  lemma BareCheck(descriptionStr: string)
    requires descriptionStr != ""
    ensures BuildDescription("Checks", descriptionStr, "") == "Checks: " + descriptionStr
  {
  }

  /** Prefixing is not idempotent: a description that already carries its type's
      prefix gets it a second time. */
  lemma PrefixRepeats(typ: string, descriptionStr: string, checkNum: string)
    requires !Unprefixed(typ) && typ != "Checks" && descriptionStr != ""
    ensures var once := BuildDescription(typ, descriptionStr, checkNum);
      once == typ + ": " + descriptionStr &&
      BuildDescription(typ, once, checkNum) == typ + ": " + typ + ": " + descriptionStr
  {
  }

  /** `parseCSVRow`: the date must parse, then the cleaned amount must be non-empty;
      the candidate is labelled "Other" and not confirmed. */
  function ParseRow(row: Row, fallback: string -> Option<Date>): (r: Result<ParsedTransaction, RowError>)
    ensures r == Err(InvalidDateFormat(Column(row, "Date"))) <==> ParseDate(Column(row, "Date"), fallback).None?
    ensures r == Err(InvalidAmount(Column(row, "Amount"))) <==>
      ParseDate(Column(row, "Date"), fallback).Some? && CleanAmount(Column(row, "Amount")) == []
    ensures r.Err? ==> r == Err(InvalidDateFormat(Column(row, "Date"))) || r == Err(InvalidAmount(Column(row, "Amount")))
    ensures r.Ok? ==>
      var t := r.value;
      Some(t.date) == ParseDate(Column(row, "Date"), fallback) &&
      Some(t.amount) == ParseAmount(Column(row, "Amount")) &&
      t.description == BuildDescription(Column(row, "Type"), Column(row, "Description"), Column(row, "Check #")) &&
      t.description != [] && t.merchant == ExtractMerchant(t.description) && |t.merchant| <= 50 &&
      t.category == Other && !t.categoryConfirmed
  {
    var dateStr := Column(row, "Date");
    var amountStr := Column(row, "Amount");
    match ParseDate(dateStr, fallback)
    case None => Err(InvalidDateFormat(dateStr))
    case Some(date) =>
      var description := BuildDescription(Column(row, "Type"), Column(row, "Description"), Column(row, "Check #"));
      match ParseAmount(amountStr)
      case None => Err(InvalidAmount(amountStr))
      case Some(amount) =>
        Ok(ParsedTransaction(date, description, amount, ExtractMerchant(description), Other, false))
  }

  /** The rows the admission `filter` of `parseCSV` keeps. */
  function AdmittedRows(rows: seq<Row>): seq<Row> {
    Filter(rows, Admitted)
  }

  /** The position of the first failure, or the length when every result is a success. */
  function FirstFailure<T, E>(rs: seq<Result<T, E>>): (k: nat)
    ensures k <= |rs| && forall j :: 0 <= j < k ==> rs[j].Ok?
    ensures k < |rs| ==> rs[k].Err?
  {
    if rs == [] || rs[0].Err? then 0 else 1 + FirstFailure(rs[1..])
  }

  /** The successes in order, or the first failure. */
  function Collect<T, E>(rs: seq<Result<T, E>>): (r: Result<seq<T>, E>)
    ensures r.Ok? <==> FirstFailure(rs) == |rs|
    ensures r.Ok? ==> |r.value| == |rs| && forall i :: 0 <= i < |rs| ==> rs[i] == Ok(r.value[i])
    ensures r.Err? ==> r.error == rs[FirstFailure(rs)].error
  {
    if rs == [] then Ok([])
    else match rs[0]
      case Err(e) => Err(e)
      case Ok(t) =>
        match Collect(rs[1..])
        case Err(e) => Err(e)
        case Ok(ts) =>
          var r := [t] + ts;
          assert forall i :: 1 <= i < |rs| ==> rs[i] == rs[1..][i - 1] && r[i] == ts[i - 1];
          Ok(r)
  }

  /** Each row parsed in order, then collected. */
  function CollectMap<R, T, E>(rows: seq<R>, parse: R -> Result<T, E>): Result<seq<T>, E> {
    Collect(seq(|rows|, i requires 0 <= i < |rows| => parse(rows[i])))
  }

  /** The collected parse succeeds exactly when every row parses, with one result per
      row in order; otherwise it fails with the first failing row's error. */
  lemma CollectMapOutcome<R, T, E>(rows: seq<R>, parse: R -> Result<T, E>)
    ensures var r := CollectMap(rows, parse);
      (r.Ok? <==> forall i :: 0 <= i < |rows| ==> parse(rows[i]).Ok?) &&
      (r.Ok? ==> |r.value| == |rows| && forall i :: 0 <= i < |rows| ==> parse(rows[i]) == Ok(r.value[i])) &&
      (r.Err? ==> exists i :: 0 <= i < |rows| && parse(rows[i]) == Err(r.error) &&
                    (forall j :: 0 <= j < i ==> parse(rows[j]).Ok?))
  {
    var rs := seq(|rows|, i requires 0 <= i < |rows| => parse(rows[i]));
    assert forall i :: 0 <= i < |rows| ==> rs[i] == parse(rows[i]);
    assert CollectMap(rows, parse) == Collect(rs);
    var k := FirstFailure(rs);
    if k < |rows| {
      assert rs[k] == parse(rows[k]);
    }
  }

  /** The `map` of `parseCSV`: the admitted rows, each parsed, the first failure (a
      throw inside the `map`) rejecting the whole parse. */
  function ParseRows(rows: seq<Row>, fallback: string -> Option<Date>): Result<seq<ParsedTransaction>, RowError> {
    CollectMap(AdmittedRows(rows), row => ParseRow(row, fallback))
  }

  /** The validity test of `parseCSV`'s last `filter`: a date and an amount that is
      not `undefined` (NaN passes). */
  predicate HasDateAndAmount(t: PartialTransaction) {
    t.date.Some? && t.amount.Some?
  }

  /** `parseCSV` after the header-keyed rows: the mapped rows, then the validity
      `filter`, which keeps every candidate, since each has a date and an amount; so
      the outcome is that of the `map`. */
  function ParseCsv(rows: seq<Row>, fallback: string -> Option<Date>): (r: Result<seq<ParsedTransaction>, RowError>)
    ensures r == ParseRows(rows, fallback)
  {
    var parsed := ParseRows(rows, fallback);
    var valid := (t: ParsedTransaction) => HasDateAndAmount(ToPartial(t));
    assert parsed.Ok? ==> forall i :: 0 <= i < |parsed.value| ==> valid(parsed.value[i]);
    FilterOk(parsed, valid)
  }

  /** A `filter` applied to a successful outcome; it changes nothing when every value
      passes the test. */
  function FilterOk<T(==,!new), E>(r: Result<seq<T>, E>, keep: T -> bool): (f: Result<seq<T>, E>)
    ensures (r.Ok? ==> forall i :: 0 <= i < |r.value| ==> keep(r.value[i])) ==> f == r
  {
    match r
    case Err(e) => Err(e)
    case Ok(ts) => Ok(Filter(ts, keep))
  }

  /** Admitted rows only, all or nothing: the parse fails exactly when some admitted
      row fails. */
  lemma {:induction false} FilterThenCollect<R(!new), T, E>(rows: seq<R>, keep: R -> bool, parse: R -> Result<T, E>)
    ensures CollectMap(Filter(rows, keep), parse).Err? <==>
      exists row :: row in rows && keep(row) && parse(row).Err?
  {
    var admitted := Filter(rows, keep);
    CollectMapOutcome(admitted, parse);
    if CollectMap(admitted, parse).Err? {
      var i :| 0 <= i < |admitted| && parse(admitted[i]).Err?;
      assert admitted[i] in admitted;
    }
    if exists row :: row in rows && keep(row) && parse(row).Err? {
      var row :| row in rows && keep(row) && parse(row).Err?;
      assert row in admitted;
      var i :| 0 <= i < |admitted| && admitted[i] == row;
    }
  }

  /** One admitted row that fails rejects the whole parse, and only then does it fail. */
  lemma ParseRowsFails(rows: seq<Row>, fallback: string -> Option<Date>)
    ensures ParseRows(rows, fallback).Err? <==>
      exists row :: row in rows && Admitted(row) && ParseRow(row, fallback).Err?
  {
    FilterThenCollect(rows, Admitted, row => ParseRow(row, fallback));
  }

  /** A successful parse yields one candidate per admitted row, in order. */
  lemma ParseRowsSucceeds(rows: seq<Row>, fallback: string -> Option<Date>)
    requires ParseRows(rows, fallback).Ok?
    ensures var ts := ParseRows(rows, fallback).value;
      |ts| == |AdmittedRows(rows)| &&
      forall i :: 0 <= i < |ts| ==> ParseRow(AdmittedRows(rows)[i], fallback) == Ok(ts[i])
  {
    CollectMapOutcome(AdmittedRows(rows), row => ParseRow(row, fallback));
  }

  /** Every candidate of a successful parse is labelled "Other" and not confirmed. */
  lemma ParseRowsLabels(rows: seq<Row>, fallback: string -> Option<Date>)
    requires ParseRows(rows, fallback).Ok?
    ensures forall t :: t in ParseRows(rows, fallback).value ==> t.category == Other && !t.categoryConfirmed
  {
    var ts := ParseRows(rows, fallback).value;
    ParseRowsSucceeds(rows, fallback);
    forall t | t in ts ensures t.category == Other && !t.categoryConfirmed {
      var i :| 0 <= i < |ts| && ts[i] == t;
      ParseRowLabel(AdmittedRows(rows)[i], fallback, t);
    }
  }

  lemma ParseRowLabel(row: Row, fallback: string -> Option<Date>, t: ParsedTransaction)
    requires ParseRow(row, fallback) == Ok(t)
    ensures t.category == Other && !t.categoryConfirmed
  {
  }

  /** A transaction with some fields possibly missing, as the validity check and the
      date range take it. */
  datatype PartialTransaction = PartialTransaction(
    date: Option<Date>,
    amount: Option<Amount>,
    description: Option<string>)

  function ToPartial(t: ParsedTransaction): PartialTransaction {
    PartialTransaction(Some(t.date), Some(t.amount), Some(t.description))
  }

  /** `validateTransaction`: a date, an amount (NaN included) and a non-empty
      description. */
  predicate ValidateTransaction(t: PartialTransaction) {
    t.date.Some? && t.amount.Some? && t.description.Some? && t.description.value != ""
  }

  /** The check follows JavaScript truthiness: a NaN amount passes, since it is not
      `undefined`; an empty description fails, since "" is falsy. */
  lemma ValidateTruthiness(date: Date, amount: Amount, description: string)
    ensures ValidateTransaction(PartialTransaction(Some(date), Some(NotANumber), Some(description)))
      <==> description != ""
    ensures !ValidateTransaction(PartialTransaction(Some(date), Some(amount), Some("")))
    ensures !ValidateTransaction(PartialTransaction(Some(date), None, Some(description)))
  {
  }

  /** Every candidate the parser yields passes the validity check. */
  lemma ParsedIsValid(row: Row, fallback: string -> Option<Date>)
    requires ParseRow(row, fallback).Ok?
    ensures ValidateTransaction(ToPartial(ParseRow(row, fallback).value))
  {
  }

  /** Time order on dates: year, then month index, then day. */
  predicate NotAfter(a: Date, b: Date) {
    a.year < b.year || (a.year == b.year && (a.monthIndex < b.monthIndex ||
      (a.monthIndex == b.monthIndex && a.day <= b.day)))
  }

  predicate SortedByTime(ds: seq<Date>) {
    forall i, j :: 0 <= i < j < |ds| ==> NotAfter(ds[i], ds[j])
  }

  /** The dates present, in order (`map(t => t.date).filter(d => d instanceof Date)`). */
  function PresentDates(ts: seq<PartialTransaction>): (ds: seq<Date>)
    ensures forall d :: d in ds <==> exists t :: t in ts && t.date == Some(d)
  {
    if ts == [] then []
    else
      var rest := PresentDates(ts[1..]);
      assert forall t :: t in ts[1..] ==> t in ts;
      assert forall t :: t in ts && t != ts[0] ==> t in ts[1..];
      match ts[0].date
      case Some(d) => [d] + rest
      case None => rest
  }

  /** Places a date into a time-sorted list. */
  function Insert(d: Date, ds: seq<Date>): (r: seq<Date>)
    requires SortedByTime(ds)
    ensures SortedByTime(r) && multiset(r) == multiset(ds) + multiset{d}
  {
    if ds == [] || NotAfter(d, ds[0]) then [d] + ds
    else
      var rest := Insert(d, ds[1..]);
      assert ds == [ds[0]] + ds[1..];
      InsertBehind(d, ds[0], ds[1..], rest);
      [ds[0]] + rest
  }

  /** Putting the head back in front of the insertion into the tail keeps the order,
      since the head comes no later than the tail or the inserted date. */
  lemma InsertBehind(d: Date, h: Date, tail: seq<Date>, rest: seq<Date>)
    requires SortedByTime([h] + tail) && SortedByTime(rest) && !NotAfter(d, h)
    requires multiset(rest) == multiset(tail) + multiset{d}
    ensures SortedByTime([h] + rest)
  {
    forall x | x in rest ensures NotAfter(h, x) {
      assert x in multiset(rest);
      if x == d {
        assert NotAfter(h, d);
      } else {
        assert x in multiset(tail);
        var k :| 0 <= k < |tail| && tail[k] == x;
        var ht := [h] + tail;
        assert ht[0] == h && ht[k + 1] == x;
        assert NotAfter(ht[0], ht[k + 1]);
      }
    }
    var r := [h] + rest;
    forall i, j | 0 <= i < j < |r| ensures NotAfter(r[i], r[j]) {
      if i == 0 {
        assert r[j] == rest[j - 1];
      } else {
        assert r[i] == rest[i - 1] && r[j] == rest[j - 1];
      }
    }
  }

  /** The `sort` by `getTime`: a time-sorted permutation of the dates. */
  function SortByTime(ds: seq<Date>): (r: seq<Date>)
    ensures SortedByTime(r) && multiset(r) == multiset(ds)
  {
    if ds == [] then []
    else
      assert ds == [ds[0]] + ds[1..];
      Insert(ds[0], SortByTime(ds[1..]))
  }

  /** `getDateRange`: the first and last of the sorted dates, or the current time,
      given here as `now`, when there are none. */
  function GetDateRange(ts: seq<PartialTransaction>, now: Date): (r: (Date, Date))
    ensures PresentDates(ts) == [] ==> r == (now, now)
    ensures PresentDates(ts) != [] ==> r.0 in PresentDates(ts) && r.1 in PresentDates(ts)
  {
    var ds := PresentDates(ts);
    var sorted := SortByTime(ds);
    SameElements(ds, sorted);
    if sorted == [] then (now, now) else (sorted[0], sorted[|sorted| - 1])
  }

  /** The first of a time-sorted list is the earliest and the last the latest. */
  lemma SortedEnds(sorted: seq<Date>)
    requires SortedByTime(sorted) && sorted != []
    ensures forall d :: d in sorted ==> NotAfter(sorted[0], d) && NotAfter(d, sorted[|sorted| - 1])
  {
    forall d | d in sorted ensures NotAfter(sorted[0], d) && NotAfter(d, sorted[|sorted| - 1]) {
      var k :| 0 <= k < |sorted| && sorted[k] == d;
      if k > 0 {
        assert NotAfter(sorted[0], sorted[k]);
      }
      if k < |sorted| - 1 {
        assert NotAfter(sorted[k], sorted[|sorted| - 1]);
      }
    }
  }

  /** Two lists with the same multiset hold the same elements. */
  lemma SameElements(ds: seq<Date>, sorted: seq<Date>)
    requires multiset(ds) == multiset(sorted)
    ensures forall d :: d in ds <==> d in sorted
  {
    forall d ensures d in ds <==> d in sorted {
      assert d in ds <==> d in multiset(ds);
      assert d in sorted <==> d in multiset(sorted);
    }
  }

  /** With some date present, the range runs from the earliest to the latest of them;
      with none, it is `now` to `now`. */
  lemma DateRangeBounds(ts: seq<PartialTransaction>, now: Date)
    ensures var (start, end) := GetDateRange(ts, now);
      var ds := PresentDates(ts);
      (ds == [] ==> start == now && end == now) &&
      (ds != [] ==> start in ds && end in ds && NotAfter(start, end) &&
                    forall d :: d in ds ==> NotAfter(start, d) && NotAfter(d, end))
  {
    var ds := PresentDates(ts);
    var sorted := SortByTime(ds);
    SameElements(ds, sorted);
    if ds != [] {
      assert ds[0] in sorted;
      SortedEnds(sorted);
    }
  }
}
