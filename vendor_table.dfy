/** The vendor table (`VENDOR_DATABASE`): an ordered map from lower-case vendor name
    fragments to categories, enumerated in JavaScript property order, and the
    assignment `VENDOR_DATABASE[key] = category` that overrides write through. */
module VendorTable {
  import opened Wrappers
  import opened Text
  import opened Categories
  import opened Sequences

  /** Entries in enumeration order (the order `Object.entries` yields them). */
  type Table = seq<(string, Category)>

  /** A key JavaScript treats as an array index: the canonical decimal form of an
      integer below 2^32 - 1. Such keys enumerate before all others, in ascending
      numeric order; all other keys enumerate in insertion order. */
  predicate IsIndexKey(k: string) {
    |k| > 0 && AllDigits(k) && (k[0] != '0' || k == "0") && DigitsValue(k) < 0xFFFF_FFFF
  }

  ghost predicate DistinctKeys(t: Table) {
    forall i, j :: 0 <= i < j < |t| ==> t[i].0 != t[j].0
  }

  /** Array-index keys form a prefix of the table, in ascending numeric order. */
  ghost predicate IndexKeysFirst(t: Table) {
    forall i, j :: 0 <= i < j < |t| && IsIndexKey(t[j].0) ==>
      IsIndexKey(t[i].0) && DigitsValue(t[i].0) <= DigitsValue(t[j].0)
  }

  /** The shape every JavaScript object's own string-keyed properties have. */
  ghost predicate WellFormed(t: Table) {
    DistinctKeys(t) && IndexKeysFirst(t)
  }

  /** The position of the entry with key `k`, if there is one. */
  function KeyIndex(t: Table, k: string): (r: Option<nat>)
    ensures r.Some? ==> r.value < |t| && t[r.value].0 == k && forall j :: 0 <= j < r.value ==> t[j].0 != k
    ensures r.None? ==> forall j :: 0 <= j < |t| ==> t[j].0 != k
  {
    if t == [] then None
    else if t[0].0 == k then Some(0)
    else match KeyIndex(t[1..], k)
      case None => None
      case Some(i) => Some(i + 1)
  }

  /** The first position holding `k` is the one `KeyIndex` finds. */
  lemma KeyIndexAt(t: Table, k: string, i: nat)
    requires i < |t| && t[i].0 == k
    requires forall j :: 0 <= j < i ==> t[j].0 != k
    ensures KeyIndex(t, k) == Some(i)
  {
  }

  /** `VENDOR_DATABASE[k]`. */
  function Lookup(t: Table, k: string): Option<Category> {
    match KeyIndex(t, k)
    case None => None
    case Some(i) => Some(t[i].1)
  }

  /** The table without the entry for `k`. */
  function Without(t: Table, k: string): Table {
    if t == [] then []
    else if t[0].0 == k then Without(t[1..], k)
    else [t[0]] + Without(t[1..], k)
  }

  /** It holds exactly the entries with other keys. */
  lemma {:induction false} WithoutMembers(t: Table, k: string)
    ensures forall e :: e in Without(t, k) <==> e in t && e.0 != k
  {
    if t != [] {
      WithoutMembers(t[1..], k);
      assert t == [t[0]] + t[1..];
    }
  }

  /** The number of leading array-index keys whose value is below `v`: where a new
      array-index key of value `v` is placed. */
  function IndexInsertPos(t: Table, v: nat): (p: nat)
    ensures p <= |t|
    ensures forall i :: 0 <= i < p ==> IsIndexKey(t[i].0) && DigitsValue(t[i].0) < v
    ensures p < |t| ==> !IsIndexKey(t[p].0) || DigitsValue(t[p].0) >= v
  {
    if t == [] || !IsIndexKey(t[0].0) || DigitsValue(t[0].0) >= v then 0
    else 1 + IndexInsertPos(t[1..], v)
  }

  /** `VENDOR_DATABASE[k] = c`: an existing key keeps its slot and takes the new
      category; a new array-index key joins the index prefix in numeric order; any
      other new key is appended. */
  function Override(t: Table, k: string, c: Category): Table {
    match KeyIndex(t, k)
    case Some(i) => t[i := (k, c)]
    case None =>
      if IsIndexKey(k) then
        var p := IndexInsertPos(t, DigitsValue(k));
        t[..p] + [(k, c)] + t[p..]
      else t + [(k, c)]
  }

  /** Overriding keeps the table a well-formed JavaScript property list. */
  lemma OverrideWellFormed(t: Table, k: string, c: Category)
    requires WellFormed(t)
    ensures WellFormed(Override(t, k, c))
  {
    match KeyIndex(t, k)
    case Some(i) =>
      SameKeysWellFormed(t, t[i := (k, c)]);
    case None =>
      if IsIndexKey(k) {
        var p := IndexInsertPos(t, DigitsValue(k));
        InsertKeepsIndexOrder(t, k, c, p);
        InsertKeepsDistinct(t, k, c, p);
      } else {
        InsertKeepsDistinct(t, k, c, |t|);
        assert t[..|t|] + [(k, c)] + t[|t|..] == t + [(k, c)];
        AppendKeepsIndexOrder(t, k, c);
      }
  }

  /** Only the keys decide well-formedness. */
  lemma SameKeysWellFormed(t: Table, r: Table)
    requires WellFormed(t) && |r| == |t|
    requires forall i :: 0 <= i < |t| ==> r[i].0 == t[i].0
    ensures WellFormed(r)
  {
  }

  /** A key that is not an array index may go last. */
  lemma AppendKeepsIndexOrder(t: Table, k: string, c: Category)
    requires IndexKeysFirst(t) && !IsIndexKey(k)
    ensures IndexKeysFirst(t + [(k, c)])
  {
    var r := t + [(k, c)];
    forall i, j | 0 <= i < j < |r| && IsIndexKey(r[j].0)
      ensures IsIndexKey(r[i].0) && DigitsValue(r[i].0) <= DigitsValue(r[j].0)
    {
      assert j < |t| && r[i] == t[i] && r[j] == t[j];
    }
  }

  /** A new array-index key placed after the smaller index keys keeps the index keys
      first and in ascending order. */
  lemma InsertKeepsIndexOrder(t: Table, k: string, c: Category, p: nat)
    requires IndexKeysFirst(t) && IsIndexKey(k) && p == IndexInsertPos(t, DigitsValue(k))
    ensures IndexKeysFirst(t[..p] + [(k, c)] + t[p..])
  {
    var v := DigitsValue(k);
    var r := t[..p] + [(k, c)] + t[p..];
    forall i | p <= i < |t| && IsIndexKey(t[i].0)
      ensures DigitsValue(t[i].0) >= v
    {
      assert IsIndexKey(t[p].0) && DigitsValue(t[p].0) <= DigitsValue(t[i].0);
    }
    forall i, j | 0 <= i < j < |r| && IsIndexKey(r[j].0)
      ensures IsIndexKey(r[i].0) && DigitsValue(r[i].0) <= DigitsValue(r[j].0)
    {
      InsertedAt(t, (k, c), p, i);
      InsertedAt(t, (k, c), p, j);
    }
  }

  /** A key not yet present, inserted anywhere, keeps the keys distinct. */
  lemma InsertKeepsDistinct(t: Table, k: string, c: Category, p: nat)
    requires DistinctKeys(t) && KeyIndex(t, k).None? && p <= |t|
    ensures DistinctKeys(t[..p] + [(k, c)] + t[p..])
  {
    var r := t[..p] + [(k, c)] + t[p..];
    forall i, j | 0 <= i < j < |r|
      ensures r[i].0 != r[j].0
    {
      InsertedAt(t, (k, c), p, i);
      InsertedAt(t, (k, c), p, j);
    }
  }

  /** After overriding, `k` maps to `c` and every other key maps to what it mapped to. */
  lemma OverrideLookup(t: Table, k: string, c: Category)
    ensures Lookup(Override(t, k, c), k) == Some(c)
    ensures forall k' :: k' != k ==> Lookup(Override(t, k, c), k') == Lookup(t, k')
  {
    match KeyIndex(t, k)
    case Some(i) =>
      forall k' | k' != k ensures Lookup(Override(t, k, c), k') == Lookup(t, k') {
        ReplaceLookup(t, k, c, i, k');
      }
      KeyIndexAt(t[i := (k, c)], k, i);
    case None =>
      var p := if IsIndexKey(k) then IndexInsertPos(t, DigitsValue(k)) else |t|;
      assert Override(t, k, c) == t[..p] + [(k, c)] + t[p..];
      KeyIndexAt(t[..p] + [(k, c)] + t[p..], k, p);
      forall k' | k' != k ensures Lookup(Override(t, k, c), k') == Lookup(t, k') {
        InsertLookup(t, k, c, p, k');
      }
  }

  lemma ReplaceLookup(t: Table, k: string, c: Category, i: nat, k': string)
    requires i < |t| && t[i].0 == k && k' != k
    ensures Lookup(t[i := (k, c)], k') == Lookup(t, k')
  {
    match KeyIndex(t, k')
    case Some(j) => KeyIndexAt(t[i := (k, c)], k', j);
    case None =>
  }

  lemma InsertLookup(t: Table, k: string, c: Category, p: nat, k': string)
    requires p <= |t| && k' != k
    ensures Lookup(t[..p] + [(k, c)] + t[p..], k') == Lookup(t, k')
  {
    var r := t[..p] + [(k, c)] + t[p..];
    match KeyIndex(t, k')
    case Some(j) =>
      var j' := if j < p then j else j + 1;
      assert r[j'] == t[j];
      forall i | 0 <= i < j' ensures r[i].0 != k' {
        if i < p { assert r[i] == t[i]; } else if i > p { assert r[i] == t[i - 1]; }
      }
      KeyIndexAt(r, k', j');
    case None =>
      forall i | 0 <= i < |r| ensures r[i].0 != k' {
        if i < p { assert r[i] == t[i]; } else if i > p { assert r[i] == t[i - 1]; }
      }
  }

  /** Overriding leaves every other entry in place relative to the rest: removing
      `k` from the old and the new table gives the same list. */
  lemma OverrideKeepsOthers(t: Table, k: string, c: Category)
    ensures Without(Override(t, k, c), k) == Without(t, k)
  {
    match KeyIndex(t, k)
    case Some(i) =>
      WithoutUpdate(t, i, (k, c), k);
    case None =>
      if IsIndexKey(k) {
        WithoutInsert(t, IndexInsertPos(t, DigitsValue(k)), (k, c), k);
      } else {
        WithoutInsert(t, |t|, (k, c), k);
        assert t[..|t|] + [(k, c)] + t[|t|..] == t + [(k, c)];
      }
  }

  /** Replacing an entry for `k` by another entry for `k` leaves the other entries. */
  lemma {:induction false} WithoutUpdate(t: Table, i: nat, e: (string, Category), k: string)
    requires i < |t| && t[i].0 == k && e.0 == k
    ensures Without(t[i := e], k) == Without(t, k)
  {
    if i == 0 {
      assert t[i := e][1..] == t[1..];
    } else {
      assert t[i := e][0] == t[0];
      assert t[i := e][1..] == t[1..][i - 1 := e];
      WithoutUpdate(t[1..], i - 1, e, k);
    }
  }

  /** Inserting an entry for `k` anywhere leaves the other entries. */
  lemma {:induction false} WithoutInsert(t: Table, p: nat, e: (string, Category), k: string)
    requires p <= |t| && e.0 == k
    ensures Without(t[..p] + [e] + t[p..], k) == Without(t, k)
  {
    var r := t[..p] + [e] + t[p..];
    if p == 0 {
      assert r[0] == e && r[1..] == t;
    } else {
      assert r[0] == t[0];
      assert r[1..] == t[1..][..p - 1] + [e] + t[1..][p - 1..];
      WithoutInsert(t[1..], p - 1, e, k);
    }
  }

  /** Where the overridden key ends up: an existing key keeps its slot, a new
      array-index key lands after the smaller index keys, any other new key is last. */
  lemma OverridePosition(t: Table, k: string, c: Category)
    requires WellFormed(t)
    ensures KeyIndex(t, k).Some? ==> KeyIndex(Override(t, k, c), k) == KeyIndex(t, k)
    ensures KeyIndex(t, k).None? && !IsIndexKey(k) ==> KeyIndex(Override(t, k, c), k) == Some(|t|)
    ensures KeyIndex(t, k).None? && IsIndexKey(k) ==>
      KeyIndex(Override(t, k, c), k) == Some(IndexInsertPos(t, DigitsValue(k)))
    ensures |Override(t, k, c)| == if KeyIndex(t, k).Some? then |t| else |t| + 1
  {
    var r := Override(t, k, c);
    match KeyIndex(t, k)
    case Some(i) =>
      KeyIndexAt(r, k, i);
    case None =>
      var p := if IsIndexKey(k) then IndexInsertPos(t, DigitsValue(k)) else |t|;
      assert r == t[..p] + [(k, c)] + t[p..];
      KeyIndexAt(r, k, p);
  }

  /** The one key an assignment cannot create as an own property: `__proto__` reaches
      the accessor every ordinary object inherits, whose setter ignores a string. */
  const ProtoKey: string := "__proto__"

  /** `VENDOR_DATABASE[k] = c` as the language performs it: the property write of
      `Override`, except that `__proto__` leaves the table as it was. */
  function Assign(t: Table, k: string, c: Category): Table {
    if k == ProtoKey then t else Override(t, k, c)
  }

  /** The assignment keeps the table well-formed; afterwards `k` maps to `c`, unless it
      is `__proto__`, whose lookup does not change; every other key maps to what it
      mapped to, and the other entries keep their order. */
  lemma AssignLookup(t: Table, k: string, c: Category)
    requires WellFormed(t)
    ensures WellFormed(Assign(t, k, c))
    ensures Lookup(Assign(t, k, c), k) == if k == ProtoKey then Lookup(t, k) else Some(c)
    ensures forall k' :: k' != k ==> Lookup(Assign(t, k, c), k') == Lookup(t, k')
    ensures Without(Assign(t, k, c), k) == Without(t, k)
  {
    if k != ProtoKey {
      OverrideWellFormed(t, k, c);
      OverrideLookup(t, k, c);
      OverrideKeepsOthers(t, k, c);
    }
  }

  /** One commented group of the object literal: these names, all with category `c`. */
  function Group(c: Category, names: seq<string>): (g: seq<(string, Category)>)
    ensures forall e :: e in g ==> e.1 == c && e.0 in names
  {
    seq(|names|, i requires 0 <= i < |names| => (names[i], c))
  }

  function GroceryVendors(): seq<(string, Category)> {
    Group(Groceries, ["whole foods", "trader joes", "safeway", "kroger", "hyvee", "walmart", "target", "costco", "publix", "instacart"])
  }

  function FuelVendors(): seq<(string, Category)> {
    Group(GasFuel, ["shell", "chevron", "exxon", "mobil", "speedway", "texaco", "bp", "sunoco", "76", "sinclair", "citgo"])
  }

  function RestaurantVendors(): seq<(string, Category)> {
    Group(Restaurants, ["mcdonalds", "subway", "burger king", "taco bell", "chick-fil-a", "chipotle", "panera", "olive garden", "applebees", "buffalo wild wings", "pizza hut", "dominos", "papa john's", "starbucks", "dunkin"])
  }

  function UtilityVendors(): seq<(string, Category)> {
    Group(Utilities, ["electric", "water", "gas", "internet", "cable", "phone"])
  }

  function InsuranceVendors(): seq<(string, Category)> {
    Group(Insurance, ["geico", "state farm", "allstate", "progressive", "liberty mutual", "insurance"])
  }

  function SubscriptionVendors(): seq<(string, Category)> {
    Group(Subscriptions, ["netflix", "spotify", "hulu", "disney", "adobe", "microsoft", "apple", "amazon prime", "gym", "membership"])
  }

  function EntertainmentVendors(): seq<(string, Category)> {
    Group(Entertainment, ["movie", "cinema", "theatre", "concert", "game", "steam", "playstation", "xbox"])
  }

  function TransportationVendors(): seq<(string, Category)> {
    Group(Transportation, ["uber", "lyft", "taxi", "parking", "metro", "transit", "airline", "delta", "united", "american"])
  }

  function HealthcareVendors(): seq<(string, Category)> {
    Group(Healthcare, ["hospital", "clinic", "pharmacy", "cvs", "walgreens", "doctor", "dentist", "medical"])
  }

  function ShoppingVendors(): seq<(string, Category)> {
    Group(Shopping, ["amazon", "ebay", "mall", "store", "shop"])
  }

  /** The entries of the object literal that initialises the table, in source order. */
  function VendorLiteral(): seq<(string, Category)> {
    GroceryVendors()
    + FuelVendors()
    + RestaurantVendors()
    + UtilityVendors()
    + InsuranceVendors()
    + SubscriptionVendors()
    + EntertainmentVendors()
    + TransportationVendors()
    + HealthcareVendors()
    + ShoppingVendors()
  }

  /** The table an object literal with these entries produces: each entry is a
      property definition, which behaves like an override. */
  function FromEntries(es: seq<(string, Category)>): Table {
    if es == [] then [] else Override(FromEntries(es[..|es| - 1]), es[|es| - 1].0, es[|es| - 1].1)
  }

  /** The table as it stands at process start. */
  function BuiltInVendors(): Table {
    FromEntries(VendorLiteral())
  }

  /** Building from entries gives a well-formed table holding exactly the keys of
      the entries, each with a category some entry gave it. */
  lemma {:induction false} FromEntriesShape(es: seq<(string, Category)>)
    ensures WellFormed(FromEntries(es))
    ensures forall e :: e in FromEntries(es) ==> e in es
    ensures forall e :: e in es ==> KeyIndex(FromEntries(es), e.0).Some?
  {
    if es != [] {
      var init := es[..|es| - 1];
      var t := FromEntries(init);
      var last := es[|es| - 1];
      FromEntriesShape(init);
      OverrideWellFormed(t, last.0, last.1);
      OverrideLookup(t, last.0, last.1);
      var r := Override(t, last.0, last.1);
      assert es == init + [last];
      forall e | e in r ensures e in es {
        OverrideEntry(t, last.0, last.1, e);
      }
      forall e | e in es ensures KeyIndex(r, e.0).Some? {
        if e.0 != last.0 {
          assert e in init;
          assert Lookup(r, e.0) == Lookup(t, e.0);
        } else {
          assert Lookup(r, e.0) == Some(last.1);
        }
      }
    }
  }

  /** Every entry after an override is an old entry or the new one. */
  lemma OverrideEntry(t: Table, k: string, c: Category, e: (string, Category))
    requires e in Override(t, k, c)
    ensures e in t || e == (k, c)
  {
    var r := Override(t, k, c);
    var i :| 0 <= i < |r| && r[i] == e;
    match KeyIndex(t, k)
    case Some(j) =>
      if i != j { assert e == t[i]; }
    case None =>
      if IsIndexKey(k) {
        var p := IndexInsertPos(t, DigitsValue(k));
        if i < p { assert e == t[i]; } else if i > p { assert e == t[i - 1]; }
      } else if i < |t| {
        assert e == t[i];
      }
  }

  /** A literal key other than "76" starts with a non-digit. */
  predicate NameOk(n: string) {
    n == "76" || (|n| > 0 && !IsDigit(n[0]))
  }

  /** What every literal entry satisfies. */
  predicate EntryOk(e: (string, Category)) {
    e.1 != Other && NameOk(e.0) && (e.0 == "76" ==> e.1 == GasFuel)
  }

  lemma GroupFacts(c: Category, names: seq<string>)
    requires c != Other
    requires forall n :: n in names ==> NameOk(n) && (n == "76" ==> c == GasFuel)
    ensures forall e :: e in Group(c, names) ==> EntryOk(e)
  {
  }

  lemma GroceryVendorFacts()
    ensures forall e :: e in GroceryVendors() ==> EntryOk(e)
  {
    GroupFacts(Groceries, ["whole foods", "trader joes", "safeway", "kroger", "hyvee", "walmart", "target", "costco", "publix", "instacart"]);
  }

  lemma FuelVendorFacts()
    ensures forall e :: e in FuelVendors() ==> EntryOk(e)
  {
    GroupFacts(GasFuel, ["shell", "chevron", "exxon", "mobil", "speedway", "texaco", "bp", "sunoco", "76", "sinclair", "citgo"]);
  }

  lemma RestaurantVendorFacts()
    ensures forall e :: e in RestaurantVendors() ==> EntryOk(e)
  {
    GroupFacts(Restaurants, ["mcdonalds", "subway", "burger king", "taco bell", "chick-fil-a", "chipotle", "panera", "olive garden", "applebees", "buffalo wild wings", "pizza hut", "dominos", "papa john's", "starbucks", "dunkin"]);
  }

  lemma UtilityVendorFacts()
    ensures forall e :: e in UtilityVendors() ==> EntryOk(e)
  {
    GroupFacts(Utilities, ["electric", "water", "gas", "internet", "cable", "phone"]);
  }

  lemma InsuranceVendorFacts()
    ensures forall e :: e in InsuranceVendors() ==> EntryOk(e)
  {
    GroupFacts(Insurance, ["geico", "state farm", "allstate", "progressive", "liberty mutual", "insurance"]);
  }

  lemma SubscriptionVendorFacts()
    ensures forall e :: e in SubscriptionVendors() ==> EntryOk(e)
  {
    GroupFacts(Subscriptions, ["netflix", "spotify", "hulu", "disney", "adobe", "microsoft", "apple", "amazon prime", "gym", "membership"]);
  }

  lemma EntertainmentVendorFacts()
    ensures forall e :: e in EntertainmentVendors() ==> EntryOk(e)
  {
    GroupFacts(Entertainment, ["movie", "cinema", "theatre", "concert", "game", "steam", "playstation", "xbox"]);
  }

  lemma TransportationVendorFacts()
    ensures forall e :: e in TransportationVendors() ==> EntryOk(e)
  {
    GroupFacts(Transportation, ["uber", "lyft", "taxi", "parking", "metro", "transit", "airline", "delta", "united", "american"]);
  }

  lemma HealthcareVendorFacts()
    ensures forall e :: e in HealthcareVendors() ==> EntryOk(e)
  {
    GroupFacts(Healthcare, ["hospital", "clinic", "pharmacy", "cvs", "walgreens", "doctor", "dentist", "medical"]);
  }

  lemma ShoppingVendorFacts()
    ensures forall e :: e in ShoppingVendors() ==> EntryOk(e)
  {
    GroupFacts(Shopping, ["amazon", "ebay", "mall", "store", "shop"]);
  }

  /** Facts read off the literal: no entry is labelled `Other`, and "76" is the only
      key that starts with a digit. */
  lemma VendorLiteralFacts()
    ensures ("76", GasFuel) in VendorLiteral()
    ensures forall e :: e in VendorLiteral() ==> EntryOk(e)
  {
    GroceryVendorFacts();
    FuelVendorFacts();
    RestaurantVendorFacts();
    UtilityVendorFacts();
    InsuranceVendorFacts();
    SubscriptionVendorFacts();
    EntertainmentVendorFacts();
    TransportationVendorFacts();
    HealthcareVendorFacts();
    ShoppingVendorFacts();
    assert FuelVendors()[8] == ("76", GasFuel);
  }

  /** If "76" is the only entry key starting with a digit, it enumerates first. */
  lemma IndexKeyFirst(es: seq<(string, Category)>, c: Category)
    requires ("76", c) in es
    requires forall e :: e in es ==> NameOk(e.0)
    ensures |FromEntries(es)| > 0 && FromEntries(es)[0].0 == "76"
  {
    var t := FromEntries(es);
    FromEntriesShape(es);
    var i := KeyIndex(t, "76").value;
    assert DigitsValue("76") == 76 by {
      assert "76"[..1] == "7";
    }
    assert IsIndexKey(t[i].0);
    assert t[0] in es;
  }

  /** The built-in table: well-formed, no entry labelled `Other`, and the one
      array-index key "76" enumerates first although it is declared nineteenth. */
  lemma BuiltInShape()
    ensures WellFormed(BuiltInVendors())
    ensures forall e :: e in BuiltInVendors() ==> e.1 != Other
    ensures |BuiltInVendors()| > 0 && BuiltInVendors()[0] == ("76", GasFuel)
  {
    var es := VendorLiteral();
    FromEntriesShape(es);
    VendorLiteralFacts();
    IndexKeyFirst(es, GasFuel);
    var t := FromEntries(es);
    assert t[0] in es && EntryOk(t[0]);
  }
}
