/** Category resolution and confidence scoring over the vendor table, and the
    categorizer object that owns the table and the override operation. */
module Categorizer {
  import opened Wrappers
  import opened Sequences
  import opened Text
  import opened Categories
  import opened VendorTable

  /** The lower-cased `"<description> <merchant>"` text that the later stages search;
      an absent merchant is the empty string. */
  function SearchText(description: string, merchant: string): string {
    Lower(description + " " + merchant)
  }

  /** The merchant test: the vendor key occurs in the merchant, or the merchant
      occurs in the vendor key. */
  predicate MerchantMatches(merchantLower: string, key: string) {
    Contains(merchantLower, key) || Contains(key, merchantLower)
  }

  /** Some keyword of category `c` occurs in the text. */
  predicate HasKeyword(c: Category, text: string) {
    exists kw :: kw in Keywords(c) && Contains(text, kw)
  }

  /** The first table entry whose key passes the merchant test. */
  function FirstMerchantMatch(t: Table, merchantLower: string): (r: Option<nat>)
    ensures r.Some? ==> r.value < |t| && MerchantMatches(merchantLower, t[r.value].0)
    ensures r.Some? ==> forall j :: 0 <= j < r.value ==> !MerchantMatches(merchantLower, t[j].0)
    ensures r.None? ==> forall j :: 0 <= j < |t| ==> !MerchantMatches(merchantLower, t[j].0)
  {
    FirstIndex(t, (e: (string, Category)) => MerchantMatches(merchantLower, e.0))
  }

  /** The first table entry whose key occurs in the text. */
  function FirstTextMatch(t: Table, text: string): (r: Option<nat>)
    ensures r.Some? ==> r.value < |t| && Contains(text, t[r.value].0)
    ensures r.Some? ==> forall j :: 0 <= j < r.value ==> !Contains(text, t[j].0)
    ensures r.None? ==> forall j :: 0 <= j < |t| ==> !Contains(text, t[j].0)
  {
    FirstIndex(t, (e: (string, Category)) => Contains(text, e.0))
  }

  /** The first category of `order` that has a keyword in the text. */
  function FirstKeywordMatch(order: seq<Category>, text: string): (r: Option<nat>)
    ensures r.Some? ==> r.value < |order| && HasKeyword(order[r.value], text)
    ensures r.Some? ==> forall j :: 0 <= j < r.value ==> !HasKeyword(order[j], text)
    ensures r.None? ==> forall j :: 0 <= j < |order| ==> !HasKeyword(order[j], text)
  {
    FirstIndex(order, c => HasKeyword(c, text))
  }

  /** `autoCategorizeTransaction`: the merchant against the vendor table, then the
      search text against the vendor table, then the keyword table in declaration
      order, then `Other`. The result is always a category some table offered. */
  function Categorize(t: Table, description: string, merchant: string): (r: Category)
    ensures (exists e :: e in t && e.1 == r) || HasKeyword(r, SearchText(description, merchant)) || r == Other
  {
    var text := SearchText(description, merchant);
    var byMerchant := if merchant == "" then None else FirstMerchantMatch(t, Lower(merchant));
    if byMerchant.Some? then t[byMerchant.value].1
    else
      var byText := FirstTextMatch(t, text);
      if byText.Some? then t[byText.value].1
      else
        KeywordCategory(text)
  }

  /** The keyword stage: the first category in declaration order with a keyword in
      the text, else `Other`. */
  function KeywordCategory(text: string): Category {
    var byKeyword := FirstKeywordMatch(KeywordOrder(), text);
    if byKeyword.Some? then KeywordOrder()[byKeyword.value] else Other
  }

  /** Stage one decides: with a merchant whose first matching entry is `i`, the result
      is that entry's category, whatever the description says. */
  lemma CategorizeByMerchant(t: Table, description: string, merchant: string, i: nat)
    requires merchant != "" && i < |t| && MerchantMatches(Lower(merchant), t[i].0)
    requires forall j :: 0 <= j < i ==> !MerchantMatches(Lower(merchant), t[j].0)
    ensures Categorize(t, description, merchant) == t[i].1
  {
  }

  /** Stage two decides when stage one finds nothing: the first entry whose key
      occurs in the search text. */
  lemma CategorizeByText(t: Table, description: string, merchant: string, i: nat)
    requires merchant == "" || forall j :: 0 <= j < |t| ==> !MerchantMatches(Lower(merchant), t[j].0)
    requires i < |t| && Contains(SearchText(description, merchant), t[i].0)
    requires forall j :: 0 <= j < i ==> !Contains(SearchText(description, merchant), t[j].0)
    ensures Categorize(t, description, merchant) == t[i].1
  {
  }

  /** With no vendor match in either stage, the result is the first category in
      declaration order with a keyword in the search text, and `Other` exactly when
      no category has one. */
  lemma CategorizeByKeyword(t: Table, description: string, merchant: string)
    requires merchant == "" || forall j :: 0 <= j < |t| ==> !MerchantMatches(Lower(merchant), t[j].0)
    requires forall j :: 0 <= j < |t| ==> !Contains(SearchText(description, merchant), t[j].0)
    ensures var r := Categorize(t, description, merchant);
      && (r == Other <==> forall c :: !HasKeyword(c, SearchText(description, merchant)))
      && (r != Other ==>
            exists i :: (0 <= i < |KeywordOrder()| && KeywordOrder()[i] == r
              && HasKeyword(r, SearchText(description, merchant))
              && forall j :: 0 <= j < i ==> !HasKeyword(KeywordOrder()[j], SearchText(description, merchant))))
  {
    KeywordCategoryMeaning(SearchText(description, merchant));
  }

  /** The keyword stage gives `Other` exactly when no category has a keyword in the
      text, and otherwise the first category in declaration order that has one. */
  lemma KeywordCategoryMeaning(text: string)
    ensures var r := KeywordCategory(text);
      && (r == Other <==> forall c :: !HasKeyword(c, text))
      && (r != Other ==>
            exists i :: (0 <= i < |KeywordOrder()| && KeywordOrder()[i] == r && HasKeyword(r, text)
              && forall j :: 0 <= j < i ==> !HasKeyword(KeywordOrder()[j], text)))
  {
    KeywordTableShape();
    var m := FirstKeywordMatch(KeywordOrder(), text);
    if m.None? {
      forall c ensures !HasKeyword(c, text) {
        assert c in KeywordOrder();
      }
    } else {
      assert !HasKeyword(Other, text);
    }
  }

  /** How many entries labelled `c` pass the merchant test. */
  function VendorHits(t: Table, merchantLower: string, c: Category): nat {
    if t == [] then 0
    else
      var last := t[|t| - 1];
      VendorHits(t[..|t| - 1], merchantLower, c) + (if last.1 == c && MerchantMatches(merchantLower, last.0) then 1 else 0)
  }

  /** How many keyword-list entries occur in the text, duplicates counted. */
  function KeywordHits(keywords: seq<string>, text: string): nat {
    if keywords == [] then 0
    else KeywordHits(keywords[..|keywords| - 1], text) + (if Contains(text, keywords[|keywords| - 1]) then 1 else 0)
  }

  /** The signal count: two per matching vendor entry of the category (only when there
      is a merchant), one per keyword of the category found in the search text. */
  function MatchCount(t: Table, description: string, merchant: string, c: Category): nat {
    (if merchant == "" then 0 else 2 * VendorHits(t, Lower(merchant), c))
      + KeywordHits(Keywords(c), SearchText(description, merchant))
  }

  /** `Math.min(100, Math.round(n / 3 * 100))` on a natural signal count. */
  function Score(n: nat): nat {
    var rounded := (100 * n + 1) / 3;
    if rounded < 100 then rounded else 100
  }

  /** `getCategorizationConfidence`. */
  function Confidence(t: Table, description: string, merchant: string, c: Category): (r: nat)
    ensures r <= 100
    ensures r == 0 <==> MatchCount(t, description, merchant, c) == 0
  {
    Score(MatchCount(t, description, merchant, c))
  }

  /** The score is `100 n / 3` rounded half up (as `Math.round` does) and capped at 100,
      so it lies in [0, 100] and is 100 from three signals on. */
  lemma ScoreIsRoundedPercent(n: nat)
    ensures Score(n) <= 100
    ensures n >= 3 ==> Score(n) == 100
    ensures n < 3 ==> (Score(n) as real) - 0.5 <= (100 * n) as real / 3.0 < (Score(n) as real) + 0.5
  {
  }

  /** More signals never lower the score. */
  lemma ScoreMonotone(n: nat, m: nat)
    requires n <= m
    ensures Score(n) <= Score(m)
  {
  }

  lemma {:induction false} VendorHitsZero(t: Table, merchantLower: string, c: Category)
    ensures VendorHits(t, merchantLower, c) == 0 <==>
      forall j :: 0 <= j < |t| && t[j].1 == c ==> !MerchantMatches(merchantLower, t[j].0)
  {
    if t != [] {
      VendorHitsZero(t[..|t| - 1], merchantLower, c);
    }
  }

  lemma {:induction false} KeywordHitsZero(keywords: seq<string>, text: string)
    ensures KeywordHits(keywords, text) == 0 <==> forall kw :: kw in keywords ==> !Contains(text, kw)
  {
    if keywords != [] {
      var init, last := keywords[..|keywords| - 1], keywords[|keywords| - 1];
      KeywordHitsZero(init, text);
      assert keywords == init + [last];
      if KeywordHits(keywords, text) == 0 {
        forall kw | kw in keywords ensures !Contains(text, kw) {
          assert kw in init || kw == last;
        }
      }
      if forall kw :: kw in keywords ==> !Contains(text, kw) {
        assert !Contains(text, last);
        assert forall kw :: kw in init ==> kw in keywords;
      }
    }
  }

  /** Confidence is zero exactly when no vendor entry of the category passes the
      merchant test and no keyword of the category occurs in the search text. */
  lemma ConfidenceZero(t: Table, description: string, merchant: string, c: Category)
    ensures Confidence(t, description, merchant, c) == 0 <==>
      && (merchant == "" || forall j :: 0 <= j < |t| && t[j].1 == c ==> !MerchantMatches(Lower(merchant), t[j].0))
      && !HasKeyword(c, SearchText(description, merchant))
  {
    VendorHitsZero(t, Lower(merchant), c);
    KeywordHitsZero(Keywords(c), SearchText(description, merchant));
  }

  /** `Other` has no keywords, so its confidence is zero unless an entry labelled
      `Other` (which only an override can add) passes the merchant test. */
  lemma ConfidenceOfOther(t: Table, description: string, merchant: string)
    ensures Confidence(t, description, merchant, Other) == 0 <==>
      merchant == "" || forall j :: 0 <= j < |t| && t[j].1 == Other ==> !MerchantMatches(Lower(merchant), t[j].0)
  {
    ConfidenceZero(t, description, merchant, Other);
    assert Keywords(Other) == [];
  }

  /** With the built-in table the confidence of `Other` is always zero. */
  lemma ConfidenceOfOtherBuiltIn(description: string, merchant: string)
    ensures Confidence(BuiltInVendors(), description, merchant, Other) == 0
  {
    var t := BuiltInVendors();
    BuiltInShape();
    assert forall j :: 0 <= j < |t| ==> t[j].1 != Other by {
      forall j | 0 <= j < |t| ensures t[j].1 != Other {
        assert t[j] in t;
      }
    }
    ConfidenceOfOther(t, description, merchant);
  }

  /** When stage one labels a transaction, asking for the confidence of that label
      gives at least 67: the matching entry alone contributes two signals. */
  lemma ConfidenceOfMerchantLabel(t: Table, description: string, merchant: string)
    requires merchant != "" && FirstMerchantMatch(t, Lower(merchant)).Some?
    ensures Confidence(t, description, merchant, Categorize(t, description, merchant)) >= 67
  {
    var i := FirstMerchantMatch(t, Lower(merchant)).value;
    var c := t[i].1;
    assert Categorize(t, description, merchant) == c;
    VendorHitsZero(t, Lower(merchant), c);
    ScoreMonotone(2, MatchCount(t, description, merchant, c));
  }

  /** The categorizer: owns the vendor table that overrides write to. */
  class Categorizer {
    var vendors: Table

    ghost predicate Valid()
      reads this
    {
      WellFormed(vendors)
    }

    /** A categorizer holding the built-in table. */
    constructor ()
      ensures Valid() && vendors == BuiltInVendors()
    {
      vendors := BuiltInVendors();
      BuiltInShape();
    }

    /** `autoCategorizeTransaction` against the current table. */
    function AutoCategorize(description: string, merchant: string): Category
      reads this
    {
      Categorize(vendors, description, merchant)
    }

    /** `addVendorOverride`: the lower-cased vendor now maps to the category, unless it
        is `__proto__`, which the assignment cannot create; every other key keeps its
        category and its place among the others. */
    method AddVendorOverride(vendor: string, category: Category)
      requires Valid()
      modifies this
      ensures Valid()
      ensures vendors == Assign(old(vendors), Lower(vendor), category)
      ensures Lower(vendor) != ProtoKey ==> Lookup(vendors, Lower(vendor)) == Some(category)
      ensures Lower(vendor) == ProtoKey ==> vendors == old(vendors)
      ensures forall k :: k != Lower(vendor) ==> Lookup(vendors, k) == Lookup(old(vendors), k)
      ensures Without(vendors, Lower(vendor)) == Without(old(vendors), Lower(vendor))
    {
      var key := Lower(vendor);
      AssignLookup(vendors, key, category);
      vendors := Assign(vendors, key, category);
    }

    /** `getCategorizationConfidence`: accumulates the signal count over the table and
        the category's keywords, then scores it. */
    method GetCategorizationConfidence(description: string, merchant: string, category: Category)
      returns (confidence: nat)
      ensures confidence == Confidence(vendors, description, merchant, category)
      ensures confidence <= 100
    {
      var searchText := SearchText(description, merchant);
      var matchCount := 0;
      if merchant != "" {
        var merchantLower := Lower(merchant);
        for i := 0 to |vendors|
          invariant matchCount == 2 * VendorHits(vendors[..i], merchantLower, category)
        {
          PrefixStep(vendors, i);
          if vendors[i].1 == category && MerchantMatches(merchantLower, vendors[i].0) {
            matchCount := matchCount + 2;
          }
        }
        assert vendors[..|vendors|] == vendors;
      }
      ghost var fromVendors := matchCount;
      var keywords := Keywords(category);
      for i := 0 to |keywords|
        invariant matchCount == fromVendors + KeywordHits(keywords[..i], searchText)
      {
        PrefixStep(keywords, i);
        if Contains(searchText, keywords[i]) {
          matchCount := matchCount + 1;
        }
      }
      assert keywords[..|keywords|] == keywords;
      confidence := Score(matchCount);
      ScoreIsRoundedPercent(matchCount);
    }
  }
}
