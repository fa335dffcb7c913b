# Library lending core, modelled in Dafny

The model covers three parts of a small library system:

- **The lending service.** A catalogue of books, each with a total `quantity` and an `availableQuantity`, and a table of borrow records. A record is `borrowed` until the copy comes back and then `returned`. The service creates, updates and deletes books, lends and takes back copies, answers history queries and pages the catalogue. Two repair operations recompute stored available counts from the records.
- **The entities and request bodies** the service works on, with their column limits and validation constraints.
- **The browser-side store.** A key-value store with a key prefix and optional expiry, the two most-recently-used lists kept in it (recent searches and recently viewed books), and the login test.

Module layout:

- `wrappers.dfy` (`Wrappers`): `Option` and `Result`.
- `entities.dfy` (`Entities`): the `Book` and `BorrowRecord` rows, the status and condition enumerations with their wire names, and the declared column lengths.
- `dtos.dfy` (`Dtos`): the create, update, borrow, return and search request bodies, with validity predicates and the search defaults.
- `queries.dfy` (`BookQueries`): the read side of the record table:
  - counting active loans;
  - filtering by book or status;
  - ordering newest first (SQLite sorts a missing date smallest, so such records come last in descending order);
  - the latest active loan;
  - the paging arithmetic.
- `books_service.dfy` (`Lending`): what the database enforces (`TablesValid`: primary keys, the unique ISBN index, the foreign key) and the counter invariant (`Consistent`). It also holds the per-operation row transformations with lemmas about them, and the class `BooksService`, which holds the two tables and has one method per service operation.
- `seed_scenario.dfy` (`SeedScenario`): the seeded sample data, on which every stored count is off and the repair fixes all of them.
- `storage.dfy` (`ClientStorage`): the class `Storage` over a map standing for `localStorage`, and the map-level functions and lemmas that specify it.
- `client_lists.dfy` (`ClientLists`):
  - a generic move-to-front-and-cap list used for both most-recently-used lists;
  - the `bookStorage.addSearch` and `addRecentBook` operations;
  - `authStorage.isAuthenticated`.

Modelling choices:

- **Ids.** Book and record ids are natural numbers drawn from two counters held by the service (`nextBookId`, `nextRecordId`). This stands in for generated UUIDs, which are fresh.
- **Dates.** Dates and times are integers. The browser clock is a parameter `now` in milliseconds.
- **The counter invariant is not part of validity.** The invariant `availableQuantity == quantity - active loans` is proved to be preserved by every operation (`old(Consistent(..)) ==> Consistent(..)`). It is kept out of the class invariant `Valid()` because the database can hold drifted counts, as the seed data does; the repair operations exist for that case.
- **No cap on returns.** `returnBook` adds one to `availableQuantity` without capping it at `quantity` (`books.service.ts:186`). `ReturnIsNotCapped` shows a drifted table where this takes the count past the total, and `StockStaysInRange` shows that the bound holds while the invariant does.
- **Which record a return closes.** `returnBook` closes the active record with the latest borrow date. When several records share that date, which one the database returns is not determined. The model therefore says "some latest active record" (`IsLatestActive`).
- **An empty ISBN in `update`.** An ISBN of `""` is falsy, so `update` skips its conflict check. If another book already has that ISBN, the unique index on the column then rejects the save. The model has an error case `StoreRejected` for this.
- **ISBN format.** The ISBN pattern is passed to the validity predicate as a function `isbnFormatOk`.
- **The year bound.** The upper bound on `year` is computed once, when the class is loaded, so the current year is a parameter `currentYear`.
- **Looking up a book.** `findOne`, the shared lookup that throws "Book not found", is folded into each operation that calls it; there it becomes the `NotFound` error.

## Model

| member | source | states |
|---|---|---|
| Entities.StatusRoundTrip | backend/src/books/entities/borrow-record.entity.ts:4-8 | Parsing the wire name of a status gives that status back. |
| Entities.ParseStatusExact | backend/src/books/entities/borrow-record.entity.ts:4-8 | A text parses as a status exactly when it is one of `borrowed`, `returned`, `overdue`. |
| Entities.ConditionRoundTrip | backend/src/books/entities/borrow-record.entity.ts:10-15 | Parsing the wire name of a condition gives that condition back. |
| Entities.ParseConditionExact | backend/src/books/entities/borrow-record.entity.ts:10-15 | A text parses as a condition exactly when it is one of `excellent`, `good`, `fair`, `poor`. |
| Dtos.ReturnCondition | backend/src/books/dto/return-book.dto.ts:16-18 | An absent condition is accepted as none. A present one is accepted exactly when it names one of the four conditions, and then the result is present and is that condition. |
| Dtos.ValidCreateBook | backend/src/books/dto/create-book.dto.ts:6-63 | Title 1..500 and author 1..200 characters, a non-empty ISBN of the ISBN-10/13 form, a year from 1000 to the next year, at least one copy, optional category (1..100), publisher (1..200) and language (1..50), and at least one page when pages are given. |
| Dtos.ValidUpdateBook | backend/src/books/dto/create-book.dto.ts:6-63 | Each field present in an update meets the creation constraint of that field; absent fields are unconstrained. |
| Dtos.ValidBorrow | backend/src/books/dto/borrow-book.dto.ts:6-25 | A borrower name of 1..200 characters and, when given, an e-mail of 1..200 characters. |
| Dtos.ValidSearch | backend/src/books/dto/search-book.dto.ts:32-65 | When given, page ≥ 1, 1 ≤ limit ≤ 100, sort field one of `title`, `author`, `year`, `createdAt` and order `asc` or `desc`. |
| Dtos.ValidSearchBounds | backend/src/books/dto/search-book.dto.ts:32-65 | A valid search has page ≥ 1, 1 ≤ limit ≤ 100, and a sort field and order from the allowed lists. |
| Dtos.SearchDefaults | backend/src/books/dto/search-book.dto.ts:37-65 | With no paging or sorting given, page is 1, limit 10, sort `title`, order `asc`. |
| Entities.BookFitsColumns | backend/src/books/entities/book.entity.ts:11-39 | A book's title, author, ISBN, category, publisher and language are within their declared column lengths (500, 200, 20, 100, 200, 50). |
| Entities.RecordFitsColumns | backend/src/books/entities/borrow-record.entity.ts:22-26 | A record's borrower name and e-mail are within 200 characters. |
| BookQueries.IsActive | backend/src/books/books.service.ts:127-129 | A record is an active loan of a book when it lies on that book and its status is `borrowed`, the `where` of the count queries. |
| BookQueries.ActiveCount | backend/src/books/books.service.ts:127-129 | The number of a book's `borrowed` records is at most the table size, and it is zero exactly when no record of the book is active. |
| BookQueries.ActiveCountAppend | backend/src/books/books.service.ts:146-161 | Appending a record raises a book's active count by one exactly when the record is an active loan of that book. |
| BookQueries.ActiveCountUpdate | backend/src/books/books.service.ts:180-192 | Rewriting one record changes a book's active count by the difference in that record's activity. |
| BookQueries.Select | backend/src/books/books.service.ts:200-221 | A filtered table is no longer than the table, and every row in it matches the filter. |
| BookQueries.SelectAppend | backend/src/books/books.service.ts:200-221 | Filtering commutes with appending a record. |
| BookQueries.SelectExact | backend/src/books/books.service.ts:200-221 | A filter keeps every matching row as often as it occurs in the table, and no other row. |
| BookQueries.ActiveCountAfterCascade | backend/src/books/entities/borrow-record.entity.ts:54-59 | After the cascade deletes a book's records, that book has no active loans and every other book's count is unchanged. |
| BookQueries.PrecedesTotal | backend/src/books/books.service.ts:202 | The newest-first order compares any two records. |
| BookQueries.PrecedesTransitive | backend/src/books/books.service.ts:202 | The newest-first order is transitive. |
| BookQueries.Insert | backend/src/books/books.service.ts:202 | Inserting into a sorted list gives a sorted list holding one more copy of the record. |
| BookQueries.Sort | backend/src/books/books.service.ts:202-220 | The result is sorted newest first (records without a return date last) and is a permutation of the input. |
| BookQueries.IsLatestActive | backend/src/books/books.service.ts:170-173 | An index is a latest active loan of the book when it is an active loan of that book and no active loan of the book has a later borrow date. |
| BookQueries.LatestActive | backend/src/books/books.service.ts:170-177 | Nothing is found exactly when the book has no active loan. Otherwise the index found is an active loan of the book with the latest borrow date. |
| BookQueries.Offset | backend/src/books/books.service.ts:65 | The rows skipped before a page: `(page - 1) · limit`. |
| BookQueries.TotalPages | backend/src/books/books.service.ts:69 | `ceil(total / limit)`: enough pages for every row, no empty last page, and zero pages exactly when there are no rows. |
| BookQueries.PageOf | backend/src/books/books.service.ts:65-66 | The page is the `limit` rows from `offset` on, cut short at the end of the table, in table order. |
| BookQueries.PagesFromSuffix | backend/src/books/books.service.ts:65-66 | The pages from a given page on, concatenated, are the table from that page's offset on. |
| BookQueries.PagesCoverAllRows | backend/src/books/books.service.ts:65-69 | All pages, concatenated from page 1, are exactly the table. |
| BookQueries.PageEmptyIffPastEnd | backend/src/books/books.service.ts:65-69 | A page is empty exactly when its number is past `totalPages`. |
| Lending.TablesValid | backend/src/books/entities/book.entity.ts:6-18 | Books are keyed by their ids, no two books share an ISBN, every record lies on an existing book, no two records share an id, and every id is below its counter. |
| Lending.Consistent | backend/src/books/books.service.ts:241-242 | Every book's available count is its total minus its `borrowed` records. |
| Lending.IsbnConflict | backend/src/books/books.service.ts:97-104 | The ISBN check of `update` fires when the request has a non-empty ISBN, different from the book's own, that some book already holds. |
| Lending.RebasedAvailable | backend/src/books/books.service.ts:108-110 | The new available count: the new total minus the copies currently lent out. |
| Lending.BelowBorrowedCount | backend/src/books/books.service.ts:108-113 | A new total is given and the rebased available count would be negative. |
| Lending.HeldByOther | backend/src/books/entities/book.entity.ts:17-18 | A book other than the given one holds the ISBN, which the unique index would reject on save. |
| Lending.Lent | backend/src/books/books.service.ts:155 | One copy fewer available, every other column kept. |
| Lending.Restocked | backend/src/books/books.service.ts:186 | One copy more available, with no cap at the total, every other column kept. |
| Lending.Repaired | backend/src/books/books.service.ts:261-264 | The book with its available count set to its total minus the given active-loan count. |
| Lending.RepairedAll | backend/src/books/books.service.ts:235-249 | Every book with its available count recomputed from its active loans. |
| Lending.Drifted | backend/src/books/books.service.ts:241-248 | The books whose stored count differs from the recomputed one, which are the books the repair saves. |
| Lending.NewBook | backend/src/books/books.service.ts:31-34 | The row `create` saves: the request's fields, `availableQuantity` equal to `quantity`, and `Thai` when no language is given. |
| Lending.Updated | backend/src/books/books.service.ts:107-119 | The row `update` saves: each present field replaces the stored one, and a new total sets the available count to the new total minus the copies lent out. |
| Lending.NewRecord | backend/src/books/books.service.ts:146-152 | The record `borrow` saves: the request's fields on the book's id, status `borrowed`, no return date, condition or notes. |
| Lending.MarkReturned | backend/src/books/books.service.ts:180-183 | The record `returnBook` saves: the return date, condition and notes written, status `returned`, everything else kept. |
| Lending.UpdatedFitsColumns | backend/src/books/books.service.ts:107-119 | A valid update of a row within its column lengths gives a row within them, when the new ISBN fits its column. |
| Lending.SelectKeepsIdsDistinct | backend/src/books/entities/borrow-record.entity.ts:54-59 | Deleting records by the cascade keeps record ids distinct. |
| Lending.CreatedBookInRange | backend/src/books/books.service.ts:31-34 | A valid creation gives a book with `1 ≤ availableQuantity == quantity` and the language defaulting to `Thai`. |
| Lending.ConflictMeansAnotherBook | backend/src/books/books.service.ts:97-104 | When the ISBN check of `update` fires, the ISBN is held by a different book. |
| Lending.UpdateKeepsLentCount | backend/src/books/books.service.ts:107-119 | An accepted update keeps the number of lent copies. A new total rebases the available count, which stays ≥ 0. With no total given, both counts are kept, and so is the id. |
| Lending.NewRecordFitsColumns | backend/src/books/books.service.ts:146-152 | A valid borrow request makes a record that fits its columns and is an active loan of the book. |
| Lending.ConsistentIffNoDrift | backend/src/books/books.service.ts:241-248 | The tables are consistent exactly when no book needs rewriting. |
| Lending.RepairIdempotent | backend/src/books/books.service.ts:231-250 | After one repair the tables are consistent, a second repair writes nothing, and repairing again changes nothing. |
| Lending.CreateKeepsConsistent | backend/src/books/books.service.ts:31-36 | Adding a book with all copies available keeps the invariant. |
| Lending.BorrowKeepsConsistent | backend/src/books/books.service.ts:146-161 | Adding an active loan while taking one copy off the shelf keeps the invariant. |
| Lending.ReturnKeepsConsistent | backend/src/books/books.service.ts:180-192 | Closing an active loan while putting one copy back keeps the invariant. |
| Lending.UpdateKeepsConsistent | backend/src/books/books.service.ts:107-120 | An accepted update keeps the invariant. |
| Lending.RemoveKeepsConsistent | backend/src/books/books.service.ts:135 | Deleting a book together with its records keeps the invariant for the remaining books. |
| Lending.BorrowThenReturn | backend/src/books/books.service.ts:138-195 | A borrow followed by a return of the same book restores the book row and its active-loan count. |
| Lending.StockStaysInRange | backend/src/books/books.service.ts:141-186 | While the invariant holds and counts are in range, borrowing an available copy or returning an active loan keeps `0 ≤ availableQuantity ≤ quantity`. |
| Lending.ReturnIsNotCapped | backend/src/books/books.service.ts:186 | On a drifted table a return takes the available count past the total, because nothing caps it. |
| Lending.RewriteBookKeepsValid | backend/src/books/entities/book.entity.ts:6-18 | Rewriting a book without changing its id or ISBN keeps every database constraint. |
| Lending.AppendRecordKeepsValid | backend/src/books/entities/borrow-record.entity.ts:54-59 | A new record with a fresh id on an existing book keeps every database constraint. |
| Lending.RewriteRecordKeepsValid | backend/src/books/entities/borrow-record.entity.ts:54-59 | Rewriting a record with its id and book kept keeps every database constraint. |
| Lending.BorrowStep | backend/src/books/books.service.ts:146-161 | A borrow keeps the database constraints, adds exactly one active loan, and keeps the invariant and the stock range. |
| Lending.ReturnStep | backend/src/books/books.service.ts:180-192 | A return keeps the database constraints, removes exactly one active loan, and keeps the invariant and the stock range. |
| Lending.UpdateKeepsValid | backend/src/books/books.service.ts:97-120 | An update whose ISBN no other book holds keeps the unique index. |
| Lending.RepairTable | backend/src/books/books.service.ts:233-249 | The loop over all books gives every book its recomputed count and writes exactly the drifted books. |
| Lending.RepairKeepsValid | backend/src/books/books.service.ts:242-247 | Recomputing counts keeps every database constraint. |
| Lending.SelectedFrom | backend/src/books/books.service.ts:200-221 | A query returns only rows of the table. |
| Lending.FindAll | backend/src/books/books.service.ts:39-78 | The page reports the row total, the effective page and limit, and `ceil(total / limit)` pages. Its rows are that page of the matching rows, at most `limit` of them, and empty exactly when the page is past the last. |
| Lending.BooksService.constructor | backend/src/books/books.service.ts:14-19 | A service over tables that meet the database constraints. |
| Lending.BooksService.Create | backend/src/books/books.service.ts:21-37 | Conflict when any book has the ISBN, with nothing changed. Otherwise exactly one new book under a fresh id, with all copies available. The invariant is preserved. |
| Lending.BooksService.Update | backend/src/books/books.service.ts:93-121 | NotFound for an unknown book. Conflict only when a new, non-empty, different ISBN is held by some book. BadRequest when the new total is below the lent count. An empty ISBN skips the check, and the unique index rejects it when another book holds it. Otherwise the present fields are copied and a new total rebases the available count. On every error nothing changes; the invariant and the stock range are preserved. |
| Lending.BooksService.Remove | backend/src/books/books.service.ts:123-136 | NotFound for an unknown book. BadRequest exactly when the book has an active loan. Otherwise the book and, by the cascade, exactly its records are deleted. The invariant is preserved. |
| Lending.BooksService.Borrow | backend/src/books/books.service.ts:138-164 | NotFound for an unknown book. BadRequest exactly when no copy is available. Otherwise exactly one new `borrowed` record on the book, and its available count goes down by one. Nothing else changes; the invariant and the stock range are preserved. |
| Lending.BooksService.ReturnBook | backend/src/books/books.service.ts:166-195 | NotFound for an unknown book, or when it has no active loan. Otherwise one latest active record of the book gets the return date, condition, notes and status `returned`, and the available count goes up by one. No other row changes; the invariant is preserved. |
| Lending.BooksService.RecalculateAvailableQuantities | backend/src/books/books.service.ts:231-250 | Every book gets `quantity - active loans`. The books written are exactly the drifted ones. Records are untouched. The result is consistent. |
| Lending.BooksService.FixSpecificBookQuantity | backend/src/books/books.service.ts:252-266 | NotFound for an unknown book. Otherwise that one book gets its recomputed count and the rest are unchanged; on a consistent table this changes nothing. |
| Lending.BooksService.GetBorrowHistory | backend/src/books/books.service.ts:197-204 | NotFound exactly for an unknown book. Otherwise exactly that book's records, newest borrow first. |
| Lending.BooksService.GetBorrowedBooks | backend/src/books/books.service.ts:208-214 | Exactly the `borrowed` records, newest borrow first. |
| Lending.BooksService.GetReturnedBooks | backend/src/books/books.service.ts:216-222 | Exactly the `returned` records, latest return first, records without a return date last. |
| SeedScenario.SeedActiveCounts | backend/src/database/seed.ts:109-140 | The seeded records leave one copy of the first book and one of the third out. |
| SeedScenario.SeedTablesValid | backend/src/database/seed.ts:34-140 | The seed, with its titles, ISBNs, years and borrowers as written, meets the database constraints. |
| SeedScenario.SeedIsRepaired | backend/src/database/seed.ts:40-97 | All five seeded counts are off. The repair rewrites all five, to 4, 3, 3, 2 and 3, and the result is consistent. |
| ClientStorage.ExpiryFor | frontend/src/utils/storage.ts:21 | No expiry exactly when the minutes are absent or 0; otherwise `now + minutes · 60000`. |
| ClientStorage.Expired | frontend/src/utils/storage.ts:37 | An entry is stale when its expiry is present and non-zero and the clock is strictly past it. |
| ClientStorage.Lookup | frontend/src/utils/storage.ts:30-47 | `get` finds a value exactly when the full key is present and not stale, and then it is the stored value. |
| ClientStorage.Pruned | frontend/src/utils/storage.ts:37-40 | `get` deletes the entry exactly when it is stale, and changes nothing else. |
| ClientStorage.PrefixedKeys | frontend/src/utils/storage.ts:74-82 | The keys of the namespace are exactly the stored keys starting with the prefix. |
| ClientStorage.WithoutPrefix | frontend/src/utils/storage.ts:57-68 | After `clear`, a key is present exactly when it was present and lies outside the namespace, and each such key keeps its entry. |
| ClientStorage.ClearPrefix | frontend/src/utils/storage.ts:59-65 | The loop over a snapshot of the keys removes exactly the namespaced ones. |
| ClientStorage.SetThenGet | frontend/src/utils/storage.ts:17-47 | A value just set is read back unchanged and not deleted until its expiry, and forever when it has none. |
| ClientStorage.StaleEntryIsDeleted | frontend/src/utils/storage.ts:37-40 | Past a non-zero expiry, `get` answers nothing and deletes exactly that key. |
| ClientStorage.ExpiryBoundary | frontend/src/utils/storage.ts:37 | At the expiry instant an entry is still live; one millisecond later it is stale. |
| ClientStorage.SetLeavesOthers | frontend/src/utils/storage.ts:24 | Setting one key leaves what every other key answers unchanged. |
| ClientStorage.RemoveOnlyThatKey | frontend/src/utils/storage.ts:49-55 | `remove` empties its key and no other. |
| ClientStorage.GetIdempotent | frontend/src/utils/storage.ts:30-47 | Asking twice gives the same answer and deletes nothing more. |
| ClientStorage.PruneKeepsAnswers | frontend/src/utils/storage.ts:37-40 | Deleting a stale entry changes no key's answer. |
| ClientStorage.PruneThenSet | frontend/src/utils/storage.ts:107-119 | A read followed by a write of the same key is the same as the write alone. |
| ClientStorage.ClearScope | frontend/src/utils/storage.ts:57-68 | After `clear` the namespace is empty and every key outside it answers as before. |
| ClientStorage.SizeAfterSet | frontend/src/utils/storage.ts:74-82 | Setting a namespaced key grows the size by one exactly when the key is new. |
| ClientStorage.KeyInjective | frontend/src/utils/storage.ts:13-15 | Two keys map to the same full key only when they are equal. |
| ClientStorage.Storage.constructor | frontend/src/utils/storage.ts:9-11 | A store with the given prefix over the given contents. |
| ClientStorage.Storage.Default | frontend/src/utils/storage.ts:85 | The shared store, built with the default prefix `booklib_` of the constructor (`storage.ts:9`). |
| ClientStorage.Storage.Key | frontend/src/utils/storage.ts:13-15 | The full key starts with the prefix and continues with the key. |
| ClientStorage.Storage.Set | frontend/src/utils/storage.ts:17-28 | The full key now holds the value with its expiry; every other key is unchanged. |
| ClientStorage.Storage.Get | frontend/src/utils/storage.ts:30-47 | The answer is `Lookup` of the old contents; the store is `Pruned`. |
| ClientStorage.Storage.Remove | frontend/src/utils/storage.ts:49-55 | Exactly the full key is deleted. |
| ClientStorage.Storage.Clear | frontend/src/utils/storage.ts:57-68 | Exactly the namespaced keys are deleted. |
| ClientStorage.Storage.Exists | frontend/src/utils/storage.ts:70-72 | True exactly when `get` would find a value; a stale entry is deleted, as `get` does. |
| ClientStorage.Storage.Size | frontend/src/utils/storage.ts:74-82 | At most the number of stored keys, and zero exactly when no key is namespaced. |
| ClientLists.MoveToFront | frontend/src/utils/storage.ts:109-117 | The new element, then the old list without any element of the same key, cut to the cap. |
| ClientLists.AddSearchTo | frontend/src/utils/storage.ts:109 | The history with the search moved to the front, at most 10 entries. |
| ClientLists.AddRecentBookTo | frontend/src/utils/storage.ts:117 | The recent books with the book moved to the front by id, at most 5 entries. |
| ClientLists.SearchHistory | frontend/src/utils/storage.ts:106 | The stored search list, or the empty list when nothing live is stored. |
| ClientLists.RecentBooks | frontend/src/utils/storage.ts:114 | The stored book list, or the empty list when nothing live is stored. |
| ClientLists.Truthy | frontend/src/utils/storage.ts:101 | `!!` of what `get` returns: false for nothing and for the empty token, true otherwise. |
| ClientLists.Without | frontend/src/utils/storage.ts:109 | The filter is no longer than the list, keeps no element with the dropped key, and keeps only elements of the list. |
| ClientLists.WithoutCounts | frontend/src/utils/storage.ts:109 | The filter keeps every element whose key differs as often as it occurs in the list, and adds nothing. |
| ClientLists.WithoutAppend | frontend/src/utils/storage.ts:109 | Filtering a concatenation is the concatenation of the filtered parts, so kept elements stay in their order. |
| ClientLists.WithoutAbsent | frontend/src/utils/storage.ts:109 | Filtering out a key no element has changes nothing. |
| ClientLists.WithoutKeepsDistinct | frontend/src/utils/storage.ts:109 | Filtering keeps a list with distinct keys distinct. |
| ClientLists.MoveToFrontShape | frontend/src/utils/storage.ts:109-117 | The new element comes first, followed by the old list without it, in its old order, cut to the cap. |
| ClientLists.MoveToFrontKeepsDistinct | frontend/src/utils/storage.ts:109-117 | A list with distinct keys stays distinct. |
| ClientLists.MoveToFrontIdempotent | frontend/src/utils/storage.ts:109-117 | Adding the same element a second time gives back the list the first add produced. A stored list that already starts with the element can still change, for example when it repeats it or is over the cap. |
| ClientLists.AddSearchProperties | frontend/src/utils/storage.ts:107-111 | The search comes first, no other entry equals it, at most 10 entries, prior order kept, repeats avoided, and adding it a second time gives back the same list. |
| ClientLists.AddRecentBookProperties | frontend/src/utils/storage.ts:115-119 | The book comes first, no other entry has its id, at most 5 entries, prior order kept, ids stay distinct, and adding it a second time gives back the same list. |
| ClientLists.AddSearch | frontend/src/utils/storage.ts:105-111 | On the shared store, the history key holds the updated list, which expires in a week; every other key is unchanged. |
| ClientLists.AddRecentBook | frontend/src/utils/storage.ts:113-119 | On the shared store, the recent-books key holds the updated list, which expires in a day; every other key is unchanged. |
| ClientLists.IsAuthenticated | frontend/src/utils/storage.ts:101 | On the shared store, true exactly when a live token is stored and is not the empty string; a stale token is deleted. |
| ClientLists.SearchHistoryLifetime | frontend/src/utils/storage.ts:105-106 | A stored history is read back for a week and then reads as empty. |
| ClientLists.SignedInIffToken | frontend/src/utils/storage.ts:88-101 | After `setToken`, signed in exactly when the token is non-empty; after `removeToken`, not signed in. |

## Left out

- HTTP routing, response wrapping, file uploads and `updateCoverImage` are not part of this model (`books.controller.ts`, `books.module.ts`, and the cover-image write at `books.service.ts:224-229`). Neither is authentication: the credential table and the token guard under `backend/src/auth/`.
- Concurrency: each of `borrow` and `returnBook` is one atomic step. Their availability checks run outside the transaction, and the model claims nothing about interleavings.
- `findAll` filtering and sorting are left out: the `LIKE` matching, `year` equality and `orderBy` order the database applies. `Lending.FindAll` takes the already-matched, already-ordered rows and models only the skip/take and `ceil(total / limit)` arithmetic.
- `update-book.dto.ts` is not part of this model. `UpdateBookDto` is taken to be the creation fields, each optional.
- The ISBN pattern in `create-book.dto.ts` is a parameter, not a regular expression. The `IsDateString` format checks are left out: dates are integers. So is the string-to-`Date` conversion in `borrow` and `returnBook`.
- The `createdAt`/`updatedAt` timestamps and the `book` relation that `getBorrowedBooks` and `getReturnedBooks` join in are left out.
- `ReturnBook`: when condition or notes are absent from the request, the model writes them as absent. The ORM skips undefined properties on save, so the stored columns would keep their previous values. Those are empty on an active record only because the model leaves out undeclared request properties: `borrow` spreads the whole request body into the new record (`books.service.ts:146-147`), and the validation pipe does not strip unknown properties (`books.controller.ts:185`), so a borrow request could already set them.
- Values are assumed to be JSON-safe, so that parsing gives back what was stored; `undefined`, `NaN` and `Date` values, which the encoding changes, are not modelled. Neither is a stored `null`: `get` returns it as it returns the missing-key answer, so `exists` would be false for it, while the model's `Lookup` finds a value and `Exists` answers true.
- JSON encoding, the try/catch blocks that log and swallow storage errors, and the real clock in `storage.ts` are left out. Values are abstract, time is a parameter, and storage operations never fail.
- `ClientLists.SearchHistory`, `ClientLists.RecentBooks`: a stored value of another shape than the expected list reads as an empty list. In the source it would be used as it is.
- `ClientLists.Truthy`: a stored document other than the token counts as truthy, since a JSON object is. A stored `false`, `0` or `null` is not modelled.
- Numbers are integers throughout, so fractional quantities, pages or minute counts are not modelled. `NaN` is not modelled either. The truthiness tests in `set` and `get` (`storage.ts:21`, `storage.ts:37`) would treat it like 0, while `Math.ceil` would give `NaN` pages.
- String lengths count characters, not UTF-16 code units, in the column limits and in the storage keys. SQLite does not enforce declared lengths, and the model does not claim it does.
- `Lending.NewBook`, `Lending.Updated`: an explicit JSON `null` in a request body is modelled as an absent field. The validators let `null` through optional fields, so in the source `create` with `"language": null` stores NULL rather than `Thai`, and `update` writes `null` over the column (clearing a nullable one, or failing the NOT NULL constraint of title, author, isbn or year); a `null` quantity passes the `!== undefined` test and enters the arithmetic. `CreatedBookInRange` and `UpdateKeepsLentCount` hold for requests without `null` values.
- Request properties not declared in a request body (see `ReturnBook` above), and column defaults that no code path reaches (`quantity`/`availableQuantity` default 1, since `create` always sets both), are not modelled.
- The `expectedReturnDate ≥ borrowDate` rule is not modelled, because only the browser form enforces it.
