/**
 * The two persisted entities of the library back end, `Book` and `BorrowRecord`,
 * with their enumerations and the column limits the entity declarations state.
 */
module Entities {
  import opened Wrappers

  /** Primary keys. The database generates a fresh uuid for every row; a fresh number stands for it. */
  type BookId = nat
  type RecordId = nat

  /** The lifecycle of a loan, stored as a varchar holding the enumeration's string value. */
  datatype BorrowStatus = Borrowed | Returned | Overdue

  /** The condition a returned copy is recorded in. */
  datatype BookCondition = Excellent | Good | Fair | Poor

  function StatusName(s: BorrowStatus): string {
    match s
    case Borrowed => "borrowed"
    case Returned => "returned"
    case Overdue => "overdue"
  }

  /** Reads a stored status column back; any other text is not a status. */
  function ParseStatus(text: string): Option<BorrowStatus> {
    if text == "borrowed" then Some(Borrowed)
    else if text == "returned" then Some(Returned)
    else if text == "overdue" then Some(Overdue)
    else None
  }

  function ConditionName(c: BookCondition): string {
    match c
    case Excellent => "excellent"
    case Good => "good"
    case Fair => "fair"
    case Poor => "poor"
  }

  /** Reads a condition column back, or checks a request's `condition` against the enumeration. */
  function ParseCondition(text: string): Option<BookCondition> {
    if text == "excellent" then Some(Excellent)
    else if text == "good" then Some(Good)
    else if text == "fair" then Some(Fair)
    else if text == "poor" then Some(Poor)
    else None
  }

  /** Every status survives being stored as text and read back. */
  lemma StatusRoundTrip(s: BorrowStatus)
    ensures ParseStatus(StatusName(s)) == Some(s)
  {
    match s
    case Borrowed =>
    case Returned =>
    case Overdue =>
  }

  /** The only texts accepted as a status are the three names, so the column holds exactly one of them. */
  lemma ParseStatusExact(text: string)
    ensures ParseStatus(text).Some? ==> StatusName(ParseStatus(text).value) == text
    ensures ParseStatus(text).None? ==> forall s: BorrowStatus :: StatusName(s) != text
  {
    if ParseStatus(text).None? {
      forall s: BorrowStatus ensures StatusName(s) != text {
        StatusRoundTrip(s);
      }
    }
  }

  lemma ConditionRoundTrip(c: BookCondition)
    ensures ParseCondition(ConditionName(c)) == Some(c)
  {
    match c
    case Excellent =>
    case Good =>
    case Fair =>
    case Poor =>
  }

  /** A condition is accepted exactly when the text is one of the four names. */
  lemma ParseConditionExact(text: string)
    ensures ParseCondition(text).Some? ==> ConditionName(ParseCondition(text).value) == text
    ensures ParseCondition(text).None? ==> forall c: BookCondition :: ConditionName(c) != text
  {
    if ParseCondition(text).None? {
      forall c: BookCondition ensures ConditionName(c) != text {
        ConditionRoundTrip(c);
      }
    }
  }

  // Column lengths declared on the entities.
  const TitleMax: nat := 500
  const AuthorMax: nat := 200
  const IsbnMax: nat := 20
  const CategoryMax: nat := 100
  const PublisherMax: nat := 200
  const LanguageMax: nat := 50
  const BorrowerNameMax: nat := 200
  const BorrowerEmailMax: nat := 200

  /** The value the `language` column takes when an insert leaves it out. */
  const DefaultLanguage: string := "Thai"

  /**
   * A row of the `books` table. The nullable columns are options; `borrowRecords`
   * is the inverse of `BorrowRecord.bookId` and is not stored on the book.
   */
  datatype Book = Book(
    id: BookId,
    title: string,
    author: string,
    isbn: string,
    year: int,
    quantity: int,
    availableQuantity: int,
    description: Option<string>,
    category: Option<string>,
    publisher: Option<string>,
    language: Option<string>,
    pages: Option<int>,
    coverImage: Option<string>)

  predicate FitsOptional(s: Option<string>, max: nat) {
    s.None? || |s.value| <= max
  }

  /** The declared column lengths of a book row. */
  predicate BookFitsColumns(b: Book) {
    && |b.title| <= TitleMax
    && |b.author| <= AuthorMax
    && |b.isbn| <= IsbnMax
    && FitsOptional(b.category, CategoryMax)
    && FitsOptional(b.publisher, PublisherMax)
    && FitsOptional(b.language, LanguageMax)
  }

  /**
   * A row of the `borrow_records` table. `bookId` is a required foreign key to a book,
   * declared with ON DELETE CASCADE.
   */
  datatype BorrowRecord = BorrowRecord(
    id: RecordId,
    bookId: BookId,
    borrowerName: string,
    borrowerEmail: Option<string>,
    borrowDate: int,
    expectedReturnDate: int,
    actualReturnDate: Option<int>,
    condition: Option<BookCondition>,
    notes: Option<string>,
    status: BorrowStatus)

  /** The declared column lengths of a borrow record. */
  predicate RecordFitsColumns(r: BorrowRecord) {
    |r.borrowerName| <= BorrowerNameMax && FitsOptional(r.borrowerEmail, BorrowerEmailMax)
  }
}
