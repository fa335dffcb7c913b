/**
 * The request bodies and query of the books API, with the constraints their
 * validation decorators impose. A request reaches the service only after these
 * constraints hold.
 */
module Dtos {
  import opened Wrappers
  import opened Entities

  predicate LengthIn(s: string, lo: nat, hi: nat) {
    lo <= |s| <= hi
  }

  /** An optional field is valid when absent, or present with a length in range. */
  predicate OptionalLengthIn(s: Option<string>, lo: nat, hi: nat) {
    s.None? || LengthIn(s.value, lo, hi)
  }

  const MinYear: int := 1000

  /** The body of a book creation. */
  datatype CreateBookDto = CreateBookDto(
    title: string,
    author: string,
    isbn: string,
    year: int,
    quantity: int,
    description: Option<string>,
    category: Option<string>,
    publisher: Option<string>,
    language: Option<string>,
    pages: Option<int>,
    coverImage: Option<string>)

  /**
   * The creation constraints. `currentYear` is the calendar year when the server loaded
   * the class (the upper bound is computed once, at load time); `isbnFormatOk` is the
   * ISBN-10/ISBN-13 pattern match, left abstract.
   */
  predicate ValidCreateBook(d: CreateBookDto, currentYear: int, isbnFormatOk: string -> bool) {
    && LengthIn(d.title, 1, TitleMax)
    && LengthIn(d.author, 1, AuthorMax)
    && d.isbn != "" && isbnFormatOk(d.isbn)
    && MinYear <= d.year <= currentYear + 1
    && d.quantity >= 1
    && OptionalLengthIn(d.category, 1, CategoryMax)
    && OptionalLengthIn(d.publisher, 1, PublisherMax)
    && OptionalLengthIn(d.language, 1, LanguageMax)
    && (d.pages.None? || d.pages.value >= 1)
  }

  /** The body of a book update: every creation field made optional; `availableQuantity` is not one of them. */
  datatype UpdateBookDto = UpdateBookDto(
    title: Option<string>,
    author: Option<string>,
    isbn: Option<string>,
    year: Option<int>,
    quantity: Option<int>,
    description: Option<string>,
    category: Option<string>,
    publisher: Option<string>,
    language: Option<string>,
    pages: Option<int>,
    coverImage: Option<string>)

  /** Each field that is present satisfies its creation constraint. */
  predicate ValidUpdateBook(d: UpdateBookDto, currentYear: int, isbnFormatOk: string -> bool) {
    && OptionalLengthIn(d.title, 1, TitleMax)
    && OptionalLengthIn(d.author, 1, AuthorMax)
    && (d.isbn.None? || (d.isbn.value != "" && isbnFormatOk(d.isbn.value)))
    && (d.year.None? || MinYear <= d.year.value <= currentYear + 1)
    && (d.quantity.None? || d.quantity.value >= 1)
    && OptionalLengthIn(d.category, 1, CategoryMax)
    && OptionalLengthIn(d.publisher, 1, PublisherMax)
    && OptionalLengthIn(d.language, 1, LanguageMax)
    && (d.pages.None? || d.pages.value >= 1)
  }

  /** The body of a borrow request; the two dates are required, and no rule relates them. */
  datatype BorrowBookDto = BorrowBookDto(
    borrowerName: string,
    borrowerEmail: Option<string>,
    borrowDate: int,
    expectedReturnDate: int)

  predicate ValidBorrow(d: BorrowBookDto) {
    LengthIn(d.borrowerName, 1, BorrowerNameMax) && OptionalLengthIn(d.borrowerEmail, 1, BorrowerEmailMax)
  }

  /**
   * The body of a return request. The return date is required; `condition`, when present,
   * is one of the four conditions (the type carries that check); `notes` is free text.
   */
  datatype ReturnBookDto = ReturnBookDto(
    returnDate: int,
    condition: Option<BookCondition>,
    notes: Option<string>)

  /** Checks a raw `condition` field of a return request, as the enumeration validator does. */
  function ReturnCondition(raw: Option<string>): (r: Result<Option<BookCondition>, string>)
    ensures raw.None? ==> r == Ok(None)
    ensures raw.Some? ==> (r.Ok? <==> exists c: BookCondition :: ConditionName(c) == raw.value)
    ensures r.Ok? ==> (r.value.Some? <==> raw.Some?)
    ensures r.Ok? && r.value.Some? ==> raw == Some(ConditionName(r.value.value))
  {
    match raw
    case None => Ok(None)
    case Some(text) =>
      ParseConditionExact(text);
      match ParseCondition(text)
      case Some(c) =>
        assert ConditionName(c) == text;
        Ok(Some(c))
      case None => Err("condition must be one of the following values: excellent, good, fair, poor")
  }

  /** The query of a catalogue search. Absent paging and sorting fields take their initialisers' values. */
  datatype SearchBookDto = SearchBookDto(
    title: Option<string>,
    author: Option<string>,
    isbn: Option<string>,
    category: Option<string>,
    year: Option<int>,
    page: Option<int>,
    limit: Option<int>,
    sortBy: Option<string>,
    sortOrder: Option<string>)

  const DefaultPage: int := 1
  const DefaultLimit: int := 10
  const MaxLimit: int := 100
  const DefaultSortBy: string := "title"
  const DefaultSortOrder: string := "asc"

  predicate IsSortField(s: string) {
    s == "title" || s == "author" || s == "year" || s == "createdAt"
  }

  predicate IsSortOrder(s: string) {
    s == "asc" || s == "desc"
  }

  predicate ValidSearch(d: SearchBookDto) {
    && (d.page.None? || d.page.value >= 1)
    && (d.limit.None? || 1 <= d.limit.value <= MaxLimit)
    && (d.sortBy.None? || IsSortField(d.sortBy.value))
    && (d.sortOrder.None? || IsSortOrder(d.sortOrder.value))
  }

  function EffectivePage(d: SearchBookDto): int { d.page.GetOr(DefaultPage) }
  function EffectiveLimit(d: SearchBookDto): int { d.limit.GetOr(DefaultLimit) }
  function EffectiveSortBy(d: SearchBookDto): string { d.sortBy.GetOr(DefaultSortBy) }
  function EffectiveSortOrder(d: SearchBookDto): string { d.sortOrder.GetOr(DefaultSortOrder) }

  /** A valid query, with its defaults applied, pages from 1 with 1..100 rows and a known sort. */
  lemma ValidSearchBounds(d: SearchBookDto)
    requires ValidSearch(d)
    ensures EffectivePage(d) >= 1
    ensures 1 <= EffectiveLimit(d) <= MaxLimit
    ensures IsSortField(EffectiveSortBy(d)) && IsSortOrder(EffectiveSortOrder(d))
  {
  }

  /** A query with none of the optional fields means page 1 of 10 rows by ascending title. */
  lemma SearchDefaults(d: SearchBookDto)
    requires d.page.None? && d.limit.None? && d.sortBy.None? && d.sortOrder.None?
    ensures EffectivePage(d) == 1 && EffectiveLimit(d) == 10
    ensures EffectiveSortBy(d) == "title" && EffectiveSortOrder(d) == "asc"
  {
  }
}
