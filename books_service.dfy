/**
 * The lending and inventory engine of the library back end: the `books` and
 * `borrow_records` tables and the service operations that read and change them.
 *
 * The central property is the counter invariant `Consistent`: for every book,
 * `availableQuantity == quantity - (number of its records with status borrowed)`.
 * It is not part of `Valid()`, because stored data may have drifted from it; every
 * operation preserves it, and the two repair operations re-establish it.
 */
module Lending {
  import opened Wrappers
  import opened Entities
  import opened Dtos
  import opened BookQueries

  /** The exceptions the service throws, by HTTP kind, with their messages. */
  datatype Error =
    | NotFound(message: string)
    | BadRequest(message: string)
    | Conflict(message: string)
      /** The database refuses the save (the unique index on `isbn`). */
    | StoreRejected(message: string)

  const BookNotFound := "Book not found"
  const IsbnExists := "Book with this ISBN already exists"
  const BelowBorrowed := "Cannot reduce quantity below borrowed amount"
  const HasActiveBorrows := "Cannot delete book with active borrows"
  const NotAvailable := "Book is not available for borrowing"
  const NoActiveRecord := "No active borrow record found for this book"
  const UniqueIsbn := "UNIQUE constraint failed: books.isbn"

  // ---- Invariants of the two tables ----

  predicate KeyedById(books: map<BookId, Book>) {
    forall id | id in books :: books[id].id == id
  }

  predicate IsbnTaken(books: map<BookId, Book>, isbn: string) {
    exists id | id in books :: books[id].isbn == isbn
  }

  /** The unique index on `isbn`. */
  predicate IsbnUnique(books: map<BookId, Book>) {
    forall a, b | a in books && b in books && a != b :: books[a].isbn != books[b].isbn
  }

  /** The foreign key: every record refers to an existing book. */
  predicate RecordsReferenceBooks(books: map<BookId, Book>, rs: seq<BorrowRecord>) {
    forall i | 0 <= i < |rs| :: rs[i].bookId in books
  }

  /** The primary key of `borrow_records`: no two records share an id. */
  predicate RecordIdsDistinct(rs: seq<BorrowRecord>) {
    forall i, j | 0 <= i < j < |rs| :: rs[i].id != rs[j].id
  }

  /** What the database guarantees of the tables, `nextBookId` and `nextRecordId` being ids not yet used. */
  predicate TablesValid(books: map<BookId, Book>, rs: seq<BorrowRecord>, nextBookId: nat, nextRecordId: nat) {
    && KeyedById(books)
    && IsbnUnique(books)
    && RecordsReferenceBooks(books, rs)
    && RecordIdsDistinct(rs)
    && (forall id | id in books :: id < nextBookId)
    && (forall i | 0 <= i < |rs| :: rs[i].id < nextRecordId)
  }

  /** The counter invariant. */
  predicate Consistent(books: map<BookId, Book>, rs: seq<BorrowRecord>) {
    forall id | id in books :: books[id].availableQuantity == books[id].quantity - ActiveCount(rs, id)
  }

  /** Every book has between none and all of its copies on the shelf. */
  predicate InStock(books: map<BookId, Book>) {
    forall id | id in books :: 0 <= books[id].availableQuantity <= books[id].quantity
  }

  // ---- The rows the operations write ----

  /** The row `create` inserts: the request's fields, all copies available, the default language when none is given. */
  function NewBook(id: BookId, d: CreateBookDto): Book {
    Book(id, d.title, d.author, d.isbn, d.year, d.quantity, d.quantity, d.description,
         d.category, d.publisher, Some(d.language.GetOr(DefaultLanguage)), d.pages, d.coverImage)
  }

  /** A valid creation request yields a row within the declared columns, with `1 <= availableQuantity == quantity`. */
  lemma CreatedBookInRange(id: BookId, d: CreateBookDto, currentYear: int, isbnFormatOk: string -> bool)
    requires ValidCreateBook(d, currentYear, isbnFormatOk)
    ensures 1 <= NewBook(id, d).availableQuantity == NewBook(id, d).quantity
    ensures |d.isbn| <= IsbnMax ==> BookFitsColumns(NewBook(id, d))
    ensures NewBook(id, d).language == Some(if d.language.Some? then d.language.value else "Thai")
  {
  }

  /** The ISBN check of `update` fires: a non-empty ISBN other than the book's own, already held by a book. */
  predicate IsbnConflict(books: map<BookId, Book>, id: BookId, d: UpdateBookDto)
    requires id in books
  {
    d.isbn.Some? && d.isbn.value != "" && d.isbn.value != books[id].isbn && IsbnTaken(books, d.isbn.value)
  }

  /** `update`'s new available count: the new total minus the copies currently lent out. */
  function RebasedAvailable(b: Book, newQuantity: int): int {
    newQuantity - (b.quantity - b.availableQuantity)
  }

  predicate BelowBorrowedCount(b: Book, d: UpdateBookDto) {
    d.quantity.Some? && RebasedAvailable(b, d.quantity.value) < 0
  }

  /** The present update fields copied over the book; the available count rebased when the total changes. */
  function Updated(b: Book, d: UpdateBookDto): Book {
    Book(b.id,
         d.title.GetOr(b.title),
         d.author.GetOr(b.author),
         d.isbn.GetOr(b.isbn),
         d.year.GetOr(b.year),
         d.quantity.GetOr(b.quantity),
         if d.quantity.Some? then RebasedAvailable(b, d.quantity.value) else b.availableQuantity,
         if d.description.Some? then d.description else b.description,
         if d.category.Some? then d.category else b.category,
         if d.publisher.Some? then d.publisher else b.publisher,
         if d.language.Some? then d.language else b.language,
         if d.pages.Some? then d.pages else b.pages,
         if d.coverImage.Some? then d.coverImage else b.coverImage)
  }

  /** Another book than `id` holds `isbn`. */
  predicate HeldByOther(books: map<BookId, Book>, id: BookId, isbn: string) {
    exists other | other in books :: other != id && books[other].isbn == isbn
  }

  /** A conflict is raised only when the ISBN changes to one that another book holds. */
  lemma ConflictMeansAnotherBook(books: map<BookId, Book>, id: BookId, d: UpdateBookDto)
    requires id in books && IsbnConflict(books, id, d)
    ensures HeldByOther(books, id, d.isbn.value)
  {
    var k :| k in books && books[k].isbn == d.isbn.value;
    assert k != id;
  }

  /**
   * An update leaves the number of copies lent out, `quantity - availableQuantity`, as it
   * was; without a new quantity it leaves both counts as they were.
   */
  lemma UpdateKeepsLentCount(b: Book, d: UpdateBookDto)
    requires !BelowBorrowedCount(b, d)
    ensures Updated(b, d).quantity - Updated(b, d).availableQuantity == b.quantity - b.availableQuantity
    ensures d.quantity.None? ==> Updated(b, d).availableQuantity == b.availableQuantity && Updated(b, d).quantity == b.quantity
    ensures d.quantity.Some? ==> Updated(b, d).availableQuantity >= 0 && Updated(b, d).quantity == d.quantity.value
    ensures Updated(b, d).id == b.id
  {
  }

  /** A valid update of a row within its declared columns gives a row within them, given an ISBN that fits. */
  lemma UpdatedFitsColumns(b: Book, d: UpdateBookDto, currentYear: int, isbnFormatOk: string -> bool)
    requires BookFitsColumns(b) && ValidUpdateBook(d, currentYear, isbnFormatOk)
    requires d.isbn.Some? ==> |d.isbn.value| <= IsbnMax
    ensures BookFitsColumns(Updated(b, d))
  {
  }

  /** One copy lent out. */
  function Lent(b: Book): Book {
    b.(availableQuantity := b.availableQuantity - 1)
  }

  /** One copy back on the shelf; nothing caps the count at `quantity`. */
  function Restocked(b: Book): Book {
    b.(availableQuantity := b.availableQuantity + 1)
  }

  /** The count the repair operations write: the total minus the active loans. */
  function Repaired(b: Book, active: nat): Book {
    b.(availableQuantity := b.quantity - active)
  }

  /** The record `borrow` inserts: the request's fields, status `borrowed`, the return fields empty. */
  function NewRecord(rid: RecordId, id: BookId, d: BorrowBookDto): BorrowRecord {
    BorrowRecord(rid, id, d.borrowerName, d.borrowerEmail, d.borrowDate, d.expectedReturnDate,
                 None, None, None, Borrowed)
  }

  /** A valid borrow request yields a record within the declared columns. */
  lemma NewRecordFitsColumns(rid: RecordId, id: BookId, d: BorrowBookDto)
    requires ValidBorrow(d)
    ensures RecordFitsColumns(NewRecord(rid, id, d))
    ensures IsActive(NewRecord(rid, id, d), id)
  {
  }

  /** The record after `returnBook`: the return data written, status `returned`. */
  function MarkReturned(r: BorrowRecord, d: ReturnBookDto): BorrowRecord {
    r.(actualReturnDate := Some(d.returnDate), condition := d.condition, notes := d.notes, status := Returned)
  }

  /** Every book with its count recomputed from the records. */
  function RepairedAll(books: map<BookId, Book>, rs: seq<BorrowRecord>): map<BookId, Book> {
    map id | id in books :: Repaired(books[id], ActiveCount(rs, id))
  }

  /** The books whose stored count differs from the recomputed one: the ones a repair writes. */
  function Drifted(books: map<BookId, Book>, rs: seq<BorrowRecord>): set<BookId> {
    set id | id in books && books[id].availableQuantity != books[id].quantity - ActiveCount(rs, id)
  }

  // ---- Properties of the transitions ----

  /** The tables are consistent exactly when a repair would write nothing. */
  lemma ConsistentIffNoDrift(books: map<BookId, Book>, rs: seq<BorrowRecord>)
    ensures Consistent(books, rs) <==> Drifted(books, rs) == {}
  {
    if !Consistent(books, rs) {
      var id :| id in books && books[id].availableQuantity != books[id].quantity - ActiveCount(rs, id);
      assert id in Drifted(books, rs);
    }
  }

  /** A repair establishes the invariant, and a second repair with no activity in between writes nothing. */
  lemma RepairIdempotent(books: map<BookId, Book>, rs: seq<BorrowRecord>)
    ensures Consistent(RepairedAll(books, rs), rs)
    ensures Drifted(RepairedAll(books, rs), rs) == {}
    ensures RepairedAll(RepairedAll(books, rs), rs) == RepairedAll(books, rs)
  {
    ConsistentIffNoDrift(RepairedAll(books, rs), rs);
  }

  /** Inserting a book no record refers to keeps the invariant, since the new book has no active loan. */
  lemma CreateKeepsConsistent(books: map<BookId, Book>, rs: seq<BorrowRecord>, b: Book)
    requires Consistent(books, rs) && RecordsReferenceBooks(books, rs)
    requires b.id !in books && b.availableQuantity == b.quantity
    ensures Consistent(books[b.id := b], rs)
  {
    assert ActiveCount(rs, b.id) == 0;
  }

  /** Borrowing keeps the invariant: one more active loan of the book, one fewer copy available. */
  lemma BorrowKeepsConsistent(books: map<BookId, Book>, rs: seq<BorrowRecord>, id: BookId, rec: BorrowRecord)
    requires Consistent(books, rs) && id in books && IsActive(rec, id)
    ensures Consistent(books[id := Lent(books[id])], rs + [rec])
  {
    forall k | k in books {
      ActiveCountAppend(rs, rec, k);
    }
  }

  /** Returning keeps the invariant: one fewer active loan of the book, one more copy available. */
  lemma ReturnKeepsConsistent(books: map<BookId, Book>, rs: seq<BorrowRecord>, id: BookId, i: nat, d: ReturnBookDto)
    requires Consistent(books, rs) && id in books && i < |rs| && IsActive(rs[i], id)
    ensures Consistent(books[id := Restocked(books[id])], rs[i := MarkReturned(rs[i], d)])
  {
    forall k | k in books {
      ActiveCountUpdate(rs, i, MarkReturned(rs[i], d), k);
    }
  }

  /** Updating keeps the invariant: the copies lent out stay equal to the active loans. */
  lemma UpdateKeepsConsistent(books: map<BookId, Book>, rs: seq<BorrowRecord>, id: BookId, d: UpdateBookDto)
    requires Consistent(books, rs) && id in books && !BelowBorrowedCount(books[id], d)
    ensures Consistent(books[id := Updated(books[id], d)], rs)
  {
    UpdateKeepsLentCount(books[id], d);
  }

  /** Deleting a book with its records (the cascade) keeps the invariant for the remaining books. */
  lemma RemoveKeepsConsistent(books: map<BookId, Book>, rs: seq<BorrowRecord>, id: BookId)
    requires Consistent(books, rs)
    ensures Consistent(books - {id}, Select(rs, BookIsNot(id)))
  {
    forall k | k in books - {id} {
      ActiveCountAfterCascade(rs, id, k);
    }
  }

  /**
   * Borrowing a book and then returning it restores the book row and its number of active
   * loans. It need not be the new record that is returned: the newest borrow date wins.
   */
  lemma BorrowThenReturn(books: map<BookId, Book>, rs: seq<BorrowRecord>, id: BookId, rid: RecordId,
                         bd: BorrowBookDto, i: nat, rd: ReturnBookDto)
    requires id in books
    requires IsLatestActive(rs + [NewRecord(rid, id, bd)], id, i)
    ensures Restocked(Lent(books[id])) == books[id]
    ensures (books[id := Lent(books[id])])[id := Restocked(Lent(books[id]))] == books
    ensures ActiveCount((rs + [NewRecord(rid, id, bd)])[i := MarkReturned((rs + [NewRecord(rid, id, bd)])[i], rd)], id)
         == ActiveCount(rs, id)
  {
    var b := books[id];
    assert Restocked(Lent(b)) == b;
    assert (books[id := Lent(b)])[id := b] == books;
    var rs1 := rs + [NewRecord(rid, id, bd)];
    ActiveCountAppend(rs, NewRecord(rid, id, bd), id);
    ActiveCountUpdate(rs1, i, MarkReturned(rs1[i], rd), id);
  }

  /** While the invariant holds and no book is over-lent, borrowing and returning keep every count in range. */
  lemma StockStaysInRange(books: map<BookId, Book>, rs: seq<BorrowRecord>, id: BookId, i: nat)
    requires Consistent(books, rs) && InStock(books) && id in books
    ensures books[id].availableQuantity > 0 ==> InStock(books[id := Lent(books[id])])
    ensures i < |rs| && IsActive(rs[i], id) ==> InStock(books[id := Restocked(books[id])])
  {
    if i < |rs| && IsActive(rs[i], id) {
      assert ActiveCount(rs, id) > 0;
    }
  }

  /** Without the invariant a return can push the count past the total: here one of one copies is already on the shelf. */
  lemma ReturnIsNotCapped(b: Book, rs: seq<BorrowRecord>)
    requires b.quantity == 1 && b.availableQuantity == 1
    requires |rs| == 1 && IsActive(rs[0], b.id)
    ensures !Consistent(map[b.id := b], rs)
    ensures Restocked(b).availableQuantity > Restocked(b).quantity
  {
    assert ActiveCount(rs, b.id) == 1 by {
      assert rs[..0] == [];
    }
  }

  // ---- The structural invariants under each write ----

  /** Changing a book's non-key columns other than its ISBN keeps the tables valid. */
  lemma RewriteBookKeepsValid(books: map<BookId, Book>, rs: seq<BorrowRecord>, nb: nat, nr: nat, id: BookId, b: Book)
    requires TablesValid(books, rs, nb, nr) && id in books && b.id == id && b.isbn == books[id].isbn
    ensures TablesValid(books[id := b], rs, nb, nr)
  {
  }

  lemma AppendRecordKeepsValid(books: map<BookId, Book>, rs: seq<BorrowRecord>, nb: nat, nr: nat, rec: BorrowRecord)
    requires TablesValid(books, rs, nb, nr) && rec.bookId in books && rec.id == nr
    ensures TablesValid(books, rs + [rec], nb, nr + 1)
  {
  }

  lemma RewriteRecordKeepsValid(books: map<BookId, Book>, rs: seq<BorrowRecord>, nb: nat, nr: nat, i: nat, rec: BorrowRecord)
    requires TablesValid(books, rs, nb, nr) && i < |rs| && rec.bookId == rs[i].bookId && rec.id == rs[i].id
    ensures TablesValid(books, rs[i := rec], nb, nr)
  {
  }

  /** Everything a successful borrow preserves and changes. */
  lemma BorrowStep(books: map<BookId, Book>, rs: seq<BorrowRecord>, nb: nat, nr: nat, id: BookId, d: BorrowBookDto)
    requires TablesValid(books, rs, nb, nr) && id in books && books[id].availableQuantity > 0
    ensures TablesValid(books[id := Lent(books[id])], rs + [NewRecord(nr, id, d)], nb, nr + 1)
    ensures ActiveCount(rs + [NewRecord(nr, id, d)], id) == ActiveCount(rs, id) + 1
    ensures Consistent(books, rs) ==> Consistent(books[id := Lent(books[id])], rs + [NewRecord(nr, id, d)])
    ensures Consistent(books, rs) && InStock(books) ==> InStock(books[id := Lent(books[id])])
  {
    var rec := NewRecord(nr, id, d);
    ActiveCountAppend(rs, rec, id);
    RewriteBookKeepsValid(books, rs, nb, nr, id, Lent(books[id]));
    AppendRecordKeepsValid(books[id := Lent(books[id])], rs, nb, nr, rec);
    if Consistent(books, rs) {
      BorrowKeepsConsistent(books, rs, id, rec);
      if InStock(books) {
        StockStaysInRange(books, rs, id, 0);
      }
    }
  }

  /** Everything a successful return of record `i` preserves and changes. */
  lemma ReturnStep(books: map<BookId, Book>, rs: seq<BorrowRecord>, nb: nat, nr: nat, id: BookId, i: nat, d: ReturnBookDto)
    requires TablesValid(books, rs, nb, nr) && id in books && i < |rs| && IsActive(rs[i], id)
    ensures TablesValid(books[id := Restocked(books[id])], rs[i := MarkReturned(rs[i], d)], nb, nr)
    ensures ActiveCount(rs[i := MarkReturned(rs[i], d)], id) == ActiveCount(rs, id) - 1
    ensures Consistent(books, rs) ==> Consistent(books[id := Restocked(books[id])], rs[i := MarkReturned(rs[i], d)])
    ensures Consistent(books, rs) && InStock(books) ==> InStock(books[id := Restocked(books[id])])
  {
    var rec := MarkReturned(rs[i], d);
    ActiveCountUpdate(rs, i, rec, id);
    RewriteBookKeepsValid(books, rs, nb, nr, id, Restocked(books[id]));
    RewriteRecordKeepsValid(books[id := Restocked(books[id])], rs, nb, nr, i, rec);
    if Consistent(books, rs) {
      ReturnKeepsConsistent(books, rs, id, i, d);
      if InStock(books) {
        StockStaysInRange(books, rs, id, i);
      }
    }
  }

  /** An update that passes the unique index keeps the tables valid. */
  lemma UpdateKeepsValid(books: map<BookId, Book>, rs: seq<BorrowRecord>, nb: nat, nr: nat, id: BookId, d: UpdateBookDto)
    requires TablesValid(books, rs, nb, nr) && id in books
    requires !HeldByOther(books, id, Updated(books[id], d).isbn)
    ensures TablesValid(books[id := Updated(books[id], d)], rs, nb, nr)
  {
    var books' := books[id := Updated(books[id], d)];
    forall a, b | a in books' && b in books' && a != b ensures books'[a].isbn != books'[b].isbn {
      if a == id {
        assert books[b].isbn != books'[a].isbn;
      } else if b == id {
        assert books[a].isbn != books'[b].isbn;
      }
    }
  }

  /** The books of a repair in progress: those still pending as stored, the others recomputed. */
  function RepairedOutside(books: map<BookId, Book>, rs: seq<BorrowRecord>, pending: set<BookId>): map<BookId, Book> {
    map id | id in books :: if id in pending then books[id] else Repaired(books[id], ActiveCount(rs, id))
  }

  /** Before the repair every book is pending; after it none is. */
  lemma RepairBounds(books: map<BookId, Book>, rs: seq<BorrowRecord>)
    ensures RepairedOutside(books, rs, books.Keys) == books
    ensures RepairedOutside(books, rs, {}) == RepairedAll(books, rs)
  {
  }

  /** Recomputing one pending book moves it out of the pending set. */
  lemma RepairStep(books: map<BookId, Book>, rs: seq<BorrowRecord>, pending: set<BookId>, id: BookId)
    requires id in pending && id in books
    ensures RepairedOutside(books, rs, pending)[id := Repaired(books[id], ActiveCount(rs, id))]
         == RepairedOutside(books, rs, pending - {id})
  {
    var before := RepairedOutside(books, rs, pending);
    var after := RepairedOutside(books, rs, pending - {id});
    var stepped := before[id := Repaired(books[id], ActiveCount(rs, id))];
    assert stepped.Keys == after.Keys;
    forall k | k in after ensures stepped[k] == after[k] {
    }
  }

  /** A pending book whose count is already right needs no write. */
  lemma RepairSkip(books: map<BookId, Book>, rs: seq<BorrowRecord>, pending: set<BookId>, id: BookId)
    requires id in pending && id in books
    requires books[id].availableQuantity == books[id].quantity - ActiveCount(rs, id)
    ensures RepairedOutside(books, rs, pending) == RepairedOutside(books, rs, pending - {id})
  {
    RepairStep(books, rs, pending, id);
    assert Repaired(books[id], ActiveCount(rs, id)) == books[id];
    assert RepairedOutside(books, rs, pending)[id] == books[id];
    assert RepairedOutside(books, rs, pending)[id := books[id]] == RepairedOutside(books, rs, pending);
  }

  /** The books written so far are the drifted ones no longer pending. */
  lemma DriftedStep(books: map<BookId, Book>, rs: seq<BorrowRecord>, pending: set<BookId>, id: BookId)
    requires id in pending && id in books
    ensures Drifted(books, rs) - (pending - {id})
         == (Drifted(books, rs) - pending) + (if id in Drifted(books, rs) then {id} else {})
  {
  }

  /**
   * The loop of the repair: visits every book once, in no particular order, and rewrites the
   * ones whose stored count differs from the recomputed one. Rows are keyed by their own id
   * (`KeyedById`), so counting by key is counting by `book.id`.
   */
  method RepairTable(stored: map<BookId, Book>, rs: seq<BorrowRecord>) returns (table: map<BookId, Book>, written: set<BookId>)
    ensures table == RepairedAll(stored, rs)
    ensures written == Drifted(stored, rs)
  {
    RepairBounds(stored, rs);
    table := stored;
    var pending := stored.Keys;
    written := {};
    while pending != {}
      invariant written == Drifted(stored, rs) - pending
      invariant pending <= stored.Keys
      invariant table == RepairedOutside(stored, rs, pending)
      decreases pending
    {
      var id :| id in pending;
      var book := table[id];
      assert book == stored[id];
      DriftedStep(stored, rs, pending, id);
      var correct := book.quantity - ActiveCount(rs, id);
      if book.availableQuantity != correct {
        RepairStep(stored, rs, pending, id);
        table := table[id := book.(availableQuantity := correct)];
        written := written + {id};
      } else {
        RepairSkip(stored, rs, pending, id);
      }
      pending := pending - {id};
    }
  }

  lemma RepairKeepsValid(books: map<BookId, Book>, rs: seq<BorrowRecord>, nb: nat, nr: nat)
    requires TablesValid(books, rs, nb, nr)
    ensures TablesValid(RepairedAll(books, rs), rs, nb, nr)
  {
  }

  /** Every row a query returns comes from the table. */
  lemma SelectedFrom(rs: seq<BorrowRecord>, w: Where)
    ensures forall i | 0 <= i < |Select(rs, w)| :: Select(rs, w)[i] in rs
  {
    SelectExact(rs, w);
    forall i | 0 <= i < |Select(rs, w)| ensures Select(rs, w)[i] in rs {
      var x := Select(rs, w)[i];
      assert x in multiset(Select(rs, w));
      assert x in multiset(rs);
    }
  }

  /** Recomputing one book's count keeps the tables valid, and changes nothing on a consistent table. */
  lemma FixOneStep(books: map<BookId, Book>, rs: seq<BorrowRecord>, nb: nat, nr: nat, id: BookId)
    requires TablesValid(books, rs, nb, nr) && id in books
    ensures TablesValid(books[id := Repaired(books[id], ActiveCount(rs, id))], rs, nb, nr)
    ensures Consistent(books, rs) ==> books[id := Repaired(books[id], ActiveCount(rs, id))] == books
  {
    RewriteBookKeepsValid(books, rs, nb, nr, id, Repaired(books[id], ActiveCount(rs, id)));
    if Consistent(books, rs) {
      assert Repaired(books[id], ActiveCount(rs, id)) == books[id];
    }
  }

  /** Deleting records (the cascade of `remove`) keeps the record ids distinct. */
  lemma {:induction false} SelectKeepsIdsDistinct(rs: seq<BorrowRecord>, w: Where)
    requires RecordIdsDistinct(rs)
    ensures RecordIdsDistinct(Select(rs, w))
  {
    if rs != [] {
      var p, last := rs[..|rs| - 1], rs[|rs| - 1];
      SelectKeepsIdsDistinct(p, w);
      SelectedFrom(p, w);
      var s := Select(p, w);
      if Matches(w, last) {
        forall k | 0 <= k < |s| ensures s[k].id != last.id {
          var m :| 0 <= m < |p| && p[m] == s[k];
          assert rs[m] == p[m];
        }
      }
    }
  }

  /**
   * A catalogue search: `matching` are the rows the filters select, in the requested order;
   * the result is the requested page of them.
   */
  function FindAll(matching: seq<Book>, d: SearchBookDto): (r: SearchPage<Book>)
    requires ValidSearch(d)
    ensures r.total == |matching| && r.page == EffectivePage(d) && r.limit == EffectiveLimit(d)
    ensures r.totalPages * r.limit >= r.total && (r.totalPages > 0 ==> (r.totalPages - 1) * r.limit < r.total)
    ensures |r.rows| <= r.limit
    ensures Offset(r.page, r.limit) >= 0 && r.rows == PageOf(matching, Offset(r.page, r.limit), r.limit)
    ensures r.rows == [] <==> r.page > r.totalPages
  {
    var page, limit := EffectivePage(d), EffectiveLimit(d);
    PageEmptyIffPastEnd(matching, limit, page);
    var offset: nat := Offset(page, limit);
    var rows := PageOf(matching, offset, limit);
    var totalPages := TotalPages(|matching|, limit);
    assert |rows| <= limit;
    SearchPage(rows, |matching|, page, limit, totalPages)
  }

  /** The service over its two tables. */
  class BooksService {
    var books: map<BookId, Book>
    var records: seq<BorrowRecord>
    /** Ids not yet handed out: the model of the database's uuid generation. */
    var nextBookId: nat
    var nextRecordId: nat

    ghost predicate Valid()
      reads this
    {
      TablesValid(books, records, nextBookId, nextRecordId)
    }

    /** The service over tables as the database holds them, drifted or not. */
    constructor (books: map<BookId, Book>, records: seq<BorrowRecord>, nextBookId: nat, nextRecordId: nat)
      requires TablesValid(books, records, nextBookId, nextRecordId)
      ensures Valid()
      ensures this.books == books && this.records == records
      ensures this.nextBookId == nextBookId && this.nextRecordId == nextRecordId
    {
      this.books := books;
      this.records := records;
      this.nextBookId := nextBookId;
      this.nextRecordId := nextRecordId;
    }

    /** Adds a book, unless a book with its ISBN exists. */
    method Create(d: CreateBookDto) returns (r: Result<Book, Error>)
      requires Valid()
      modifies this
      ensures Valid()
      ensures records == old(records) && nextRecordId == old(nextRecordId)
      ensures IsbnTaken(old(books), d.isbn) ==> r == Err(Conflict(IsbnExists)) && books == old(books) && nextBookId == old(nextBookId)
      ensures !IsbnTaken(old(books), d.isbn) ==>
        && r == Ok(NewBook(old(nextBookId), d))
        && old(nextBookId) !in old(books)
        && books == old(books)[old(nextBookId) := r.value]
        && nextBookId == old(nextBookId) + 1
      ensures old(Consistent(books, records)) && d.quantity >= 0 && old(InStock(books)) ==> Consistent(books, records) && InStock(books)
      ensures old(Consistent(books, records)) ==> Consistent(books, records)
    {
      if IsbnTaken(books, d.isbn) {
        return Err(Conflict(IsbnExists));
      }
      var book := NewBook(nextBookId, d);
      ghost var consistent := Consistent(books, records);
      if consistent {
        CreateKeepsConsistent(books, records, book);
      }
      books := books[book.id := book];
      nextBookId := nextBookId + 1;
      r := Ok(book);
    }

    /** Changes the present fields of a book; a new total rebases the available count. */
    method Update(id: BookId, d: UpdateBookDto) returns (r: Result<Book, Error>)
      requires Valid()
      modifies this
      ensures Valid()
      ensures records == old(records) && nextBookId == old(nextBookId) && nextRecordId == old(nextRecordId)
      ensures r.Err? ==> books == old(books)
      ensures id !in old(books) ==> r == Err(NotFound(BookNotFound))
      ensures id in old(books) && IsbnConflict(old(books), id, d) ==> r == Err(Conflict(IsbnExists))
      ensures id in old(books) && !IsbnConflict(old(books), id, d) && BelowBorrowedCount(old(books)[id], d) ==>
        r == Err(BadRequest(BelowBorrowed))
      ensures id in old(books) && !IsbnConflict(old(books), id, d) && !BelowBorrowedCount(old(books)[id], d) ==>
        if HeldByOther(old(books), id, Updated(old(books)[id], d).isbn)
        then r == Err(StoreRejected(UniqueIsbn))
        else r == Ok(Updated(old(books)[id], d)) && books == old(books)[id := r.value]
      ensures old(Consistent(books, records)) ==> Consistent(books, records)
      ensures old(InStock(books)) ==> InStock(books)
    {
      if id !in books {
        return Err(NotFound(BookNotFound));
      }
      var book := books[id];
      if d.isbn.Some? && d.isbn.value != "" && d.isbn.value != book.isbn {
        if IsbnTaken(books, d.isbn.value) {
          return Err(Conflict(IsbnExists));
        }
      }
      var available := book.availableQuantity;
      if d.quantity.Some? {
        var borrowedCount := book.quantity - book.availableQuantity;
        var newAvailable := d.quantity.value - borrowedCount;
        if newAvailable < 0 {
          return Err(BadRequest(BelowBorrowed));
        }
        available := newAvailable;
      }
      var updated := Updated(book, d);
      assert updated.availableQuantity == available;
      if HeldByOther(books, id, updated.isbn) {
        return Err(StoreRejected(UniqueIsbn));
      }
      ghost var consistent := Consistent(books, records);
      if consistent {
        UpdateKeepsConsistent(books, records, id, d);
      }
      UpdateKeepsLentCount(book, d);
      UpdateKeepsValid(books, records, nextBookId, nextRecordId, id, d);
      books := books[id := updated];
      r := Ok(updated);
    }

    /** Deletes a book and, by the cascade, its records; refused while the book is lent out. */
    method Remove(id: BookId) returns (r: Result<(), Error>)
      requires Valid()
      modifies this
      ensures Valid()
      ensures nextBookId == old(nextBookId) && nextRecordId == old(nextRecordId)
      ensures id !in old(books) ==> r == Err(NotFound(BookNotFound))
      ensures id in old(books) && ActiveCount(old(records), id) > 0 ==> r == Err(BadRequest(HasActiveBorrows))
      ensures r.Ok? <==> id in old(books) && ActiveCount(old(records), id) == 0
      ensures r.Err? ==> books == old(books) && records == old(records)
      ensures r.Ok? ==> books == old(books) - {id} && records == Select(old(records), BookIsNot(id))
      ensures old(Consistent(books, records)) ==> Consistent(books, records)
    {
      if id !in books {
        return Err(NotFound(BookNotFound));
      }
      var activeBorrows := ActiveCount(records, id);
      if activeBorrows > 0 {
        return Err(BadRequest(HasActiveBorrows));
      }
      ghost var consistent := Consistent(books, records);
      if consistent {
        RemoveKeepsConsistent(books, records, id);
      }
      SelectedFrom(records, BookIsNot(id));
      SelectKeepsIdsDistinct(records, BookIsNot(id));
      books := books - {id};
      records := Select(records, BookIsNot(id));
      r := Ok(());
    }

    /** Lends one copy: a new `borrowed` record and one copy fewer available. */
    method Borrow(id: BookId, d: BorrowBookDto) returns (r: Result<BorrowRecord, Error>)
      requires Valid()
      modifies this
      ensures Valid()
      ensures nextBookId == old(nextBookId)
      ensures id !in old(books) ==> r == Err(NotFound(BookNotFound))
      ensures id in old(books) && old(books)[id].availableQuantity <= 0 ==> r == Err(BadRequest(NotAvailable))
      ensures r.Ok? <==> id in old(books) && old(books)[id].availableQuantity > 0
      ensures r.Err? ==> books == old(books) && records == old(records) && nextRecordId == old(nextRecordId)
      ensures r.Ok? ==>
        && r.value == NewRecord(old(nextRecordId), id, d)
        && records == old(records) + [r.value]
        && books == old(books)[id := Lent(old(books)[id])]
        && nextRecordId == old(nextRecordId) + 1
      ensures r.Ok? ==> ActiveCount(records, id) == ActiveCount(old(records), id) + 1
      ensures old(Consistent(books, records)) ==> Consistent(books, records)
      ensures old(Consistent(books, records)) && old(InStock(books)) ==> InStock(books)
    {
      if id !in books {
        return Err(NotFound(BookNotFound));
      }
      var book := books[id];
      if book.availableQuantity <= 0 {
        return Err(BadRequest(NotAvailable));
      }
      var rec := NewRecord(nextRecordId, id, d);
      BorrowStep(books, records, nextBookId, nextRecordId, id, d);
      books := books[id := Lent(book)];
      records := records + [rec];
      nextRecordId := nextRecordId + 1;
      r := Ok(rec);
    }

    /** Takes back one copy: the active loan with the newest borrow date becomes `returned`. */
    method ReturnBook(id: BookId, d: ReturnBookDto) returns (r: Result<BorrowRecord, Error>)
      requires Valid()
      modifies this
      ensures Valid()
      ensures nextBookId == old(nextBookId) && nextRecordId == old(nextRecordId)
      ensures id !in old(books) ==> r == Err(NotFound(BookNotFound))
      ensures id in old(books) && ActiveCount(old(records), id) == 0 ==> r == Err(NotFound(NoActiveRecord))
      ensures r.Ok? <==> id in old(books) && ActiveCount(old(records), id) > 0
      ensures r.Err? ==> books == old(books) && records == old(records)
      ensures r.Ok? ==> exists i :: (IsLatestActive(old(records), id, i)
        && records == old(records)[i := MarkReturned(old(records)[i], d)]
        && r.value == records[i])
      ensures r.Ok? ==> books == old(books)[id := Restocked(old(books)[id])]
      ensures r.Ok? ==> ActiveCount(records, id) == ActiveCount(old(records), id) - 1
      ensures old(Consistent(books, records)) ==> Consistent(books, records)
      ensures old(Consistent(books, records)) && old(InStock(books)) ==> InStock(books)
    {
      if id !in books {
        return Err(NotFound(BookNotFound));
      }
      var latest := LatestActive(records, id);
      if latest.None? {
        return Err(NotFound(NoActiveRecord));
      }
      var i := latest.value;
      var rec := MarkReturned(records[i], d);
      ReturnStep(books, records, nextBookId, nextRecordId, id, i, d);
      books := books[id := Restocked(books[id])];
      records := records[i := rec];
      r := Ok(rec);
    }

    /** Recomputes every book's available count, writing only the books whose stored count differs. */
    method RecalculateAvailableQuantities() returns (written: set<BookId>)
      requires Valid()
      modifies this
      ensures Valid()
      ensures records == old(records) && nextBookId == old(nextBookId) && nextRecordId == old(nextRecordId)
      ensures books == RepairedAll(old(books), records)
      ensures written == Drifted(old(books), records)
      ensures Consistent(books, records)
    {
      var table;
      table, written := RepairTable(books, records);
      RepairKeepsValid(books, records, nextBookId, nextRecordId);
      RepairIdempotent(books, records);
      books := table;
    }

    /** Recomputes one book's available count. */
    method FixSpecificBookQuantity(id: BookId) returns (r: Result<Book, Error>)
      requires Valid()
      modifies this
      ensures Valid()
      ensures records == old(records) && nextBookId == old(nextBookId) && nextRecordId == old(nextRecordId)
      ensures id !in old(books) ==> r == Err(NotFound(BookNotFound)) && books == old(books)
      ensures id in old(books) ==> r == Ok(Repaired(old(books)[id], ActiveCount(records, id))) && books == old(books)[id := r.value]
      ensures id in old(books) ==> books[id].availableQuantity == books[id].quantity - ActiveCount(records, id)
      ensures old(Consistent(books, records)) ==> Consistent(books, records) && books == old(books)
    {
      if id !in books {
        return Err(NotFound(BookNotFound));
      }
      var book := books[id];
      var activeBorrowsCount := ActiveCount(records, book.id);
      var fixed := book.(availableQuantity := book.quantity - activeBorrowsCount);
      FixOneStep(books, records, nextBookId, nextRecordId, id);
      books := books[id := fixed];
      r := Ok(fixed);
    }

    /** The records of one book, newest borrow date first. */
    function GetBorrowHistory(id: BookId): (r: Result<seq<BorrowRecord>, Error>)
      reads this
      ensures r.Err? <==> id !in books
      ensures r.Err? ==> r.error == NotFound(BookNotFound)
      ensures r.Ok? ==> SortedBy(BorrowDateDesc, r.value)
      ensures r.Ok? ==> forall x :: multiset(r.value)[x] == if x.bookId == id then multiset(records)[x] else 0
    {
      if id !in books then Err(NotFound(BookNotFound))
      else
        SelectExact(records, BookIs(id));
        Ok(Sort(BorrowDateDesc, Select(records, BookIs(id))))
    }

    /** All active loans, newest borrow date first. */
    function GetBorrowedBooks(): (r: seq<BorrowRecord>)
      reads this
      ensures SortedBy(BorrowDateDesc, r)
      ensures forall x :: multiset(r)[x] == if x.status == Borrowed then multiset(records)[x] else 0
    {
      SelectExact(records, StatusIs(Borrowed));
      Sort(BorrowDateDesc, Select(records, StatusIs(Borrowed)))
    }

    /** All returned loans, latest return date first. */
    function GetReturnedBooks(): (r: seq<BorrowRecord>)
      reads this
      ensures SortedBy(ReturnDateDesc, r)
      ensures forall x :: multiset(r)[x] == if x.status == Returned then multiset(records)[x] else 0
    {
      SelectExact(records, StatusIs(Returned));
      Sort(ReturnDateDesc, Select(records, StatusIs(Returned)))
    }
  }
}
