/** The closed set of category labels and the keyword table (`CATEGORY_KEYWORDS`). */
module Categories {

  /** The category labels; `GasFuel` is the label written "Gas/Fuel". */
  datatype Category =
    | Groceries | GasFuel | Restaurants | Utilities | Insurance | Subscriptions
    | Entertainment | Transportation | Healthcare | Shopping | Transfer | Salary
    | Investment | Other

  /** The keys of the keyword table in the order the table declares them, which is the
      order the keyword stage of categorization tries them. */
  function KeywordOrder(): seq<Category> {
    [Groceries, GasFuel, Restaurants, Utilities, Insurance, Shopping, Entertainment,
     Transportation, Healthcare, Subscriptions, Transfer, Salary, Investment, Other]
  }

  /** The keyword list of each category, duplicates included ("cafe" twice). */
  function Keywords(c: Category): seq<string> {
    match c
    case Groceries => ["grocery", "supermarket", "produce", "market", "food", "fruit", "vegetable"]
    case GasFuel => ["gas station", "fuel", "petrol", "pump", "diesel"]
    case Restaurants => ["restaurant", "cafe", "cafe", "diner", "food service", "fast food", "delivery"]
    case Utilities => ["utility", "power", "electricity", "water", "gas service", "internet service", "cable service"]
    case Insurance => ["insurance", "premium"]
    case Shopping => ["retail", "merchandise", "clothing", "apparel", "shoes", "electronics"]
    case Entertainment => ["movie", "entertainment", "game", "sports", "ticket", "recreation"]
    case Transportation => ["transportation", "vehicle", "car", "transit", "parking", "taxi", "airline", "travel"]
    case Healthcare => ["health", "medical", "healthcare", "prescription", "hospital", "clinic", "wellness"]
    case Subscriptions => ["subscription", "monthly", "recurring", "membership", "premium"]
    case Transfer => ["transfer", "deposit", "withdrawal"]
    case Salary => ["payroll", "salary", "income", "wage", "payment"]
    case Investment => ["investment", "brokerage", "stock", "mutual fund"]
    case Other => []
  }

  /** Every label is a key of the keyword table, exactly once, and `Other` is the only
      label with no keywords. */
  lemma KeywordTableShape()
    ensures forall c: Category :: c in KeywordOrder()
    ensures forall i, j :: 0 <= i < j < |KeywordOrder()| ==> KeywordOrder()[i] != KeywordOrder()[j]
    ensures forall c: Category :: Keywords(c) == [] <==> c == Other
  {
    forall c: Category ensures c in KeywordOrder() {
      match c
      case Groceries => assert KeywordOrder()[0] == c;
      case GasFuel => assert KeywordOrder()[1] == c;
      case Restaurants => assert KeywordOrder()[2] == c;
      case Utilities => assert KeywordOrder()[3] == c;
      case Insurance => assert KeywordOrder()[4] == c;
      case Shopping => assert KeywordOrder()[5] == c;
      case Entertainment => assert KeywordOrder()[6] == c;
      case Transportation => assert KeywordOrder()[7] == c;
      case Healthcare => assert KeywordOrder()[8] == c;
      case Subscriptions => assert KeywordOrder()[9] == c;
      case Transfer => assert KeywordOrder()[10] == c;
      case Salary => assert KeywordOrder()[11] == c;
      case Investment => assert KeywordOrder()[12] == c;
      case Other => assert KeywordOrder()[13] == c;
    }
  }
}
