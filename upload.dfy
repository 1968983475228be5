/** The upload page's `processFile`: parse, reject an empty result, then label each
    candidate with the categorizer and attach a confidence. */
module Upload {
  import opened Wrappers
  import opened Categories
  import opened Text
  import opened VendorTable
  import opened Categorizer
  import opened TransactionParser
  import opened Sequences

  /** A candidate as the upload step keeps it for saving: the transaction with its new
      label, and the confidence carried with it and saved with the record. */
  datatype Preview = Preview(transaction: ParsedTransaction, confidence: nat)

  const NoTransactions: string := "No valid transactions found in file"

  /** The preview of one candidate, the confidence being asked for category `asked`. */
  function PreviewOf(vendors: Table, t: ParsedTransaction, asked: Category): Preview {
    Preview(t.(category := Categorize(vendors, t.description, t.merchant)),
            Confidence(vendors, t.description, t.merchant, asked))
  }

  /** The previews of `processFile` as written: the confidence is asked for the category the candidate
      had before labelling, which the parser always sets to "Other". */
  function PreviewsAsWritten(vendors: Table, ts: seq<ParsedTransaction>): (ps: seq<Preview>)
    ensures |ps| == |ts|
    ensures forall i :: 0 <= i < |ts| ==> ps[i] == PreviewOf(vendors, ts[i], ts[i].category)
  {
    if ts == [] then [] else [PreviewOf(vendors, ts[0], ts[0].category)] + PreviewsAsWritten(vendors, ts[1..])
  }

  /** The evidently intended previews: the confidence of the label just assigned. */
  function Previews(vendors: Table, ts: seq<ParsedTransaction>): (ps: seq<Preview>)
    ensures |ps| == |ts|
    ensures forall i :: 0 <= i < |ts| ==> ps[i] == PreviewOf(vendors, ts[i], ps[i].transaction.category)
  {
    if ts == [] then []
    else
      var t := ts[0];
      [PreviewOf(vendors, t, Categorize(vendors, t.description, t.merchant))] + Previews(vendors, ts[1..])
  }

  /** `processFile` as written, over the categorizer `c`. */
  method ProcessFileAsWritten(c: Categorizer, parsed: Result<seq<ParsedTransaction>, RowError>)
    returns (r: Result<seq<Preview>, string>)
    ensures parsed.Err? ==> r == Err(Message(parsed.error))
    ensures parsed == Ok([]) ==> r == Err(NoTransactions)
    ensures parsed.Ok? && parsed.value != [] ==> r == Ok(PreviewsAsWritten(c.vendors, parsed.value))
  {
    if parsed.Err? {
      return Err(Message(parsed.error));
    }
    var ts := parsed.value;
    if ts == [] {
      return Err(NoTransactions);
    }
    var ps: seq<Preview> := [];
    for i := 0 to |ts|
      invariant ps == PreviewsAsWritten(c.vendors, ts[..i])
    {
      var t := ts[i];
      var asked := t.category;
      var category := c.AutoCategorize(t.description, t.merchant);
      var confidence := c.GetCategorizationConfidence(t.description, t.merchant, asked);
      assert Preview(t.(category := category), confidence) == PreviewOf(c.vendors, t, t.category);
      ps := ps + [Preview(t.(category := category), confidence)];
      AppendPreviewAsWritten(c.vendors, ts[..i], t);
      PrefixStep(ts, i);
    }
    assert ts[..|ts|] == ts;
    return Ok(ps);
  }

  /** `processFile` with the confidence asked for the assigned label. */
  method ProcessFile(c: Categorizer, parsed: Result<seq<ParsedTransaction>, RowError>)
    returns (r: Result<seq<Preview>, string>)
    ensures parsed.Err? ==> r == Err(Message(parsed.error))
    ensures parsed == Ok([]) ==> r == Err(NoTransactions)
    ensures parsed.Ok? && parsed.value != [] ==> r == Ok(Previews(c.vendors, parsed.value))
  {
    if parsed.Err? {
      return Err(Message(parsed.error));
    }
    var ts := parsed.value;
    if ts == [] {
      return Err(NoTransactions);
    }
    var ps: seq<Preview> := [];
    for i := 0 to |ts|
      invariant ps == Previews(c.vendors, ts[..i])
    {
      var t := ts[i];
      var category := c.AutoCategorize(t.description, t.merchant);
      var confidence := c.GetCategorizationConfidence(t.description, t.merchant, category);
      ps := ps + [Preview(t.(category := category), confidence)];
      AppendPreview(c.vendors, ts[..i], t);
      PrefixStep(ts, i);
    }
    assert ts[..|ts|] == ts;
    return Ok(ps);
  }

  lemma {:induction false} AppendPreviewAsWritten(vendors: Table, ts: seq<ParsedTransaction>, t: ParsedTransaction)
    ensures PreviewsAsWritten(vendors, ts + [t]) == PreviewsAsWritten(vendors, ts) + [PreviewOf(vendors, t, t.category)]
  {
    var l, r := PreviewsAsWritten(vendors, ts + [t]), PreviewsAsWritten(vendors, ts) + [PreviewOf(vendors, t, t.category)];
    assert |l| == |r|;
    forall i | 0 <= i < |l| ensures l[i] == r[i] {
      if i < |ts| {
        assert (ts + [t])[i] == ts[i];
      }
    }
  }

  lemma {:induction false} AppendPreview(vendors: Table, ts: seq<ParsedTransaction>, t: ParsedTransaction)
    ensures Previews(vendors, ts + [t]) ==
      Previews(vendors, ts) + [PreviewOf(vendors, t, Categorize(vendors, t.description, t.merchant))]
  {
    if ts == [] {
      assert ts + [t] == [t];
    } else {
      assert (ts + [t])[1..] == ts[1..] + [t];
      AppendPreview(vendors, ts[1..], t);
    }
  }

  /** Both versions assign the same labels; only the confidence differs. */
  lemma SameLabels(vendors: Table, ts: seq<ParsedTransaction>)
    ensures forall i :: 0 <= i < |ts| ==>
      PreviewsAsWritten(vendors, ts)[i].transaction == Previews(vendors, ts)[i].transaction &&
      Previews(vendors, ts)[i].transaction.category == Categorize(vendors, ts[i].description, ts[i].merchant)
  {
  }

  /** As written, every candidate the parser yields carries confidence 0 against
      the built-in table, whatever its description and merchant. */
  lemma AsWrittenConfidenceIsZero(ts: seq<ParsedTransaction>)
    requires forall t :: t in ts ==> t.category == Other
    ensures forall p :: p in PreviewsAsWritten(BuiltInVendors(), ts) ==> p.confidence == 0
  {
    var ps := PreviewsAsWritten(BuiltInVendors(), ts);
    forall p | p in ps ensures p.confidence == 0 {
      var i :| 0 <= i < |ps| && ps[i] == p;
      assert ts[i] in ts;
      ConfidenceOfOtherBuiltIn(ts[i].description, ts[i].merchant);
    }
  }

  /** Corrected, a candidate whose merchant passes the merchant test against some table
      entry carries confidence at least 67. */
  lemma MerchantLabelConfidence(vendors: Table, ts: seq<ParsedTransaction>, i: nat)
    requires i < |ts| && ts[i].merchant != "" && FirstMerchantMatch(vendors, Lower(ts[i].merchant)).Some?
    ensures Previews(vendors, ts)[i].confidence >= 67
  {
    ConfidenceOfMerchantLabel(vendors, ts[i].description, ts[i].merchant);
  }

  /** The discrepancy: a parsed candidate whose merchant matches a built-in vendor is
      given confidence 0 as written, and at least 67 corrected. */
  lemma ConfidenceDiscrepancy(ts: seq<ParsedTransaction>, i: nat)
    requires forall t :: t in ts ==> t.category == Other
    requires i < |ts| && ts[i].merchant != "" && FirstMerchantMatch(BuiltInVendors(), Lower(ts[i].merchant)).Some?
    ensures PreviewsAsWritten(BuiltInVendors(), ts)[i].confidence == 0
    ensures Previews(BuiltInVendors(), ts)[i].confidence >= 67
  {
    AsWrittenConfidenceIsZero(ts);
    assert PreviewsAsWritten(BuiltInVendors(), ts)[i] in PreviewsAsWritten(BuiltInVendors(), ts);
    MerchantLabelConfidence(BuiltInVendors(), ts, i);
  }
}
