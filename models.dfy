/**
 * The backend's record types: the six transaction categories with their string
 * values, transactions as stored, users, import records, the database document,
 * the extractor's per-row answer and the upload response.
 */
module Models {
  import opened Basics

  datatype Category = Income | FoodDining | TransportMobility | BillsUtilities | ShoppingEntertainment | Other

  const AllCategories: seq<Category> := [Income, FoodDining, TransportMobility, BillsUtilities, ShoppingEntertainment, Other]

  /** The string value each category member carries. */
  function CategoryValue(c: Category): string
  {
    match c
    case Income => "Income"
    case FoodDining => "Food & Dining"
    case TransportMobility => "Transport & Mobility"
    case BillsUtilities => "Bills & Utilities"
    case ShoppingEntertainment => "Shopping & Entertainment"
    case Other => "Other"
  }

  /** Validation of a string against the category enumeration, as the record constructor does it. */
  function ParseCategory(s: string): (r: Option<Category>)
    ensures r.Some? ==> CategoryValue(r.value) == s
  {
    if s == "Income" then Some(Income)
    else if s == "Food & Dining" then Some(FoodDining)
    else if s == "Transport & Mobility" then Some(TransportMobility)
    else if s == "Bills & Utilities" then Some(BillsUtilities)
    else if s == "Shopping & Entertainment" then Some(ShoppingEntertainment)
    else if s == "Other" then Some(Other)
    else None
  }

  /** The six string values, in declaration order. */
  function CategoryValues(): (vs: seq<string>)
    ensures |vs| == 6 && NoDuplicates(vs)
    ensures forall c: Category :: CategoryValue(c) in vs
  {
    var vs := seq(6, i requires 0 <= i < 6 => CategoryValue(AllCategories[i]));
    assert forall c: Category :: CategoryValue(c) == vs[IndexOfCategory(c)];
    vs
  }

  function IndexOfCategory(c: Category): (i: nat)
    ensures i < 6 && AllCategories[i] == c
  {
    match c
    case Income => 0
    case FoodDining => 1
    case TransportMobility => 2
    case BillsUtilities => 3
    case ShoppingEntertainment => 4
    case Other => 5
  }

  /** A string is accepted as a category exactly when it is one of the six values, and it denotes the member carrying it. */
  lemma ParseCategoryExact(s: string)
    ensures ParseCategory(s).Some? <==> s in CategoryValues()
    ensures forall c: Category :: ParseCategory(CategoryValue(c)) == Some(c)
  {
    forall c: Category
      ensures ParseCategory(CategoryValue(c)) == Some(c)
    {
      match c
      case Income =>
      case FoodDining =>
      case TransportMobility =>
      case BillsUtilities =>
      case ShoppingEntertainment =>
      case Other =>
    }
    var vs := CategoryValues();
    if s in vs {
      var i :| 0 <= i < |vs| && vs[i] == s;
      assert s == CategoryValue(AllCategories[i]);
    }
  }

  /** Distinct categories carry distinct strings. */
  lemma CategoryValueInjective(a: Category, b: Category)
    requires CategoryValue(a) == CategoryValue(b)
    ensures a == b
  {
    var vs := CategoryValues();
    assert vs[IndexOfCategory(a)] == CategoryValue(a);
    assert vs[IndexOfCategory(b)] == CategoryValue(b);
  }

  datatype TransactionSource = TransactionSource(file: string)

  datatype ExtractedWith = ExtractedWith(model: string, schemaVersion: string)

  /** A stored transaction; amounts are whole rupiah, negative for spending. */
  datatype Transaction = Transaction(
    id: string,
    date: string,
    descriptionRaw: string,
    amount: int,
    currency: string,
    merchantCanonical: string,
    category: Category,
    categoryConfidence: real,
    isRecurring: bool,
    recurringFrequency: Option<string>,
    source: TransactionSource,
    extractedWith: ExtractedWith)

  /** A transaction built with the record's defaults for currency and recurrence. */
  function NewTransaction(id: string, date: string, descriptionRaw: string, amount: int, merchantCanonical: string,
                          category: Category, categoryConfidence: real, source: TransactionSource,
                          extractedWith: ExtractedWith): (t: Transaction)
    ensures t.currency == "IDR" && !t.isRecurring && t.recurringFrequency == None
    ensures t.id == id && t.date == date && t.amount == amount && t.category == category
  {
    Transaction(id, date, descriptionRaw, amount, "IDR", merchantCanonical, category, categoryConfidence,
                false, None, source, extractedWith)
  }

  datatype User = User(id: string, name: string, timezone: string)

  /** A user built with the record's default time zone. */
  function NewUser(id: string, name: string): (u: User)
    ensures u.timezone == "Asia/Jakarta" && u.id == id && u.name == name
  {
    User(id, name, "Asia/Jakarta")
  }

  datatype Import = Import(id: string, userId: string, file: string, importedAt: string, numRows: int)

  /** The whole database document: exactly three lists. */
  datatype DatabaseModel = DatabaseModel(users: seq<User>, transactions: seq<Transaction>, imports: seq<Import>)

  /** One row as the extractor returns it: the category is any string, not yet validated. */
  datatype ExtractedTxn = ExtractedTxn(date: string, description: string, amount: int, merchantCanonical: string,
                                       category: string, confidence: real)

  datatype UploadResponse = UploadResponse(success: bool, parsedCount: int, importId: string, message: string)

  datatype TransactionListResponse = TransactionListResponse(transactions: seq<Transaction>, total: int)
}
