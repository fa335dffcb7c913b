/**
 * The sample data the back end seeds its database with: five books whose stored available
 * counts were written by hand and three borrow records, two of them still out. None of the
 * five stored counts agrees with the records, so the repair rewrites every book.
 */
module SeedScenario {
  import opened Wrappers
  import opened Entities
  import opened BookQueries
  import opened Lending

  /** A seeded book: every column given, the language `Thai`. */
  function SeedBook(id: BookId, title: string, author: string, isbn: string, year: int, quantity: int,
                    available: int, description: string, category: string, publisher: string,
                    pages: int, cover: string): Book
  {
    Book(id, title, author, isbn, year, quantity, available, Some(description), Some(category),
         Some(publisher), Some("Thai"), Some(pages), Some(cover))
  }

  /** The five books, keyed by their position in the seed list. */
  function SeedBooks(): map<BookId, Book> {
    map[0 := SeedBook(0, "สามก๊ก", "ลัวกวนจง", "978-974-286-123-4", 1925, 5, 3,
                      "นวนิยายประวัติศาสตร์จีนที่เล่าเรื่องราวในยุคสามก๊ก", "นวนิยายประวัติศาสตร์",
                      "สำนักพิมพ์แสงแดด", 1200, "/uploads/covers/samkok.jpg"),
        1 := SeedBook(1, "เพชรพระอุมา", "ครูเหลียม", "978-974-286-124-1", 1937, 3, 2,
                      "นวนิยายรักคลาสสิกไทยที่เล่าเรื่องความรักของเพชรและพระอุมา", "นวนิยายรัก",
                      "โรงพิมพ์ไทย", 456, "/uploads/covers/petch-phra-uma.jpg"),
        2 := SeedBook(2, "คู่กรรม", "ทมยันตี", "978-974-286-125-8", 1973, 4, 4,
                      "นวนิยายที่เล่าเรื่องราวความรักและชะตากรรมของคู่รัก", "นวนิยายรัก",
                      "สำนักพิมพ์บรรณกิจ", 380, "/uploads/covers/kuu-kam.jpg"),
        3 := SeedBook(3, "ผู้ชนะสิบทิศ", "อัศนี-วสันต์", "978-974-286-126-5", 1986, 2, 1,
                      "นวนิยายผจญภัยที่เล่าเรื่องการต่อสู้เพื่อความยุติธรรม", "นวนิยายผจญภัย",
                      "สำนักพิมพ์ดอกหญ้า", 520, "/uploads/covers/phu-chana-sip-thit.jpg"),
        4 := SeedBook(4, "กรรมพุทธศาสนา", "พระธรรมปิฎก (ป.อ. ปยุตฺโต)", "978-974-286-127-2", 1995, 3, 2,
                      "หนังสือธรรมะที่อธิบายเรื่องกรรมในพุทธศาสนาอย่างละเอียด", "ธรรมะ",
                      "สำนักพิมพ์สุขภาพใจ", 280, "/uploads/covers/kam-phutthasasana.jpg")]
  }

  /** Dates are written as yyyymmdd. */
  function SeedRecords(): seq<BorrowRecord> {
    [BorrowRecord(0, 0, "สมชาย ใจดี", Some("somchai@example.com"), 20240115, 20240215,
                  None, None, None, Borrowed),
     BorrowRecord(1, 1, "สมหญิง รักการอ่าน", Some("somying@example.com"), 20240110, 20240210,
                  Some(20240208), Some(Good), None, Returned),
     BorrowRecord(2, 2, "วิชัย นักเรียน", Some("wichai@example.com"), 20240120, 20240220,
                  None, None, None, Borrowed)]
  }

  /** The active-loan counts of the seed: one each for the first and third book. */
  lemma SeedActiveCounts()
    ensures ActiveCount(SeedRecords(), 0) == 1 && ActiveCount(SeedRecords(), 1) == 0
    ensures ActiveCount(SeedRecords(), 2) == 1 && ActiveCount(SeedRecords(), 3) == 0
    ensures ActiveCount(SeedRecords(), 4) == 0
  {
    var rs := SeedRecords();
    assert rs[..2][..1][..0] == [];
    assert rs[..2][..1] == rs[..1];
    forall id: BookId | id <= 4
      ensures ActiveCount(rs, id) == (if id == 0 || id == 2 then 1 else 0)
    {
      assert ActiveCount(rs[..1], id) == (if id == 0 then 1 else 0);
      assert rs[..2][..1] == rs[..1];
      assert ActiveCount(rs[..2], id) == ActiveCount(rs[..1], id);
    }
  }

  /** The seeded ISBNs differ in their check-group digit, so no two books share one. */
  lemma SeedIsbnsUnique()
    ensures IsbnUnique(SeedBooks())
  {
    var books := SeedBooks();
    assert books.Keys == {0, 1, 2, 3, 4};
    var digit := map[0 := '3', 1 := '4', 2 := '5', 3 := '6', 4 := '7'];
    forall id | id in books ensures books[id].isbn[14] == digit[id] {
    }
  }

  /** The seed satisfies what the database enforces: ids are keys, ISBNs unique, record ids distinct, every record on a seeded book. */
  lemma SeedTablesValid()
    ensures TablesValid(SeedBooks(), SeedRecords(), 5, 3)
  {
    SeedBooksKeyed();
    SeedIsbnsUnique();
    SeedRecordsKeyed();
  }

  /** The seeded books are keyed by their ids 0 to 4. */
  lemma SeedBooksKeyed()
    ensures KeyedById(SeedBooks()) && SeedBooks().Keys == {0, 1, 2, 3, 4}
  {
    var books := SeedBooks();
    assert books.Keys == {0, 1, 2, 3, 4};
  }

  /** Record `i` has id `i` and lies on book `i`. */
  lemma SeedRecordsKeyed()
    ensures RecordIdsDistinct(SeedRecords())
    ensures forall i | 0 <= i < |SeedRecords()| :: SeedRecords()[i].id == i && SeedRecords()[i].bookId == i
  {
  }

  /** Every seeded book is drifted, and the repair sets the counts to 4, 3, 3, 2 and 3. */
  lemma SeedIsRepaired()
    ensures !Consistent(SeedBooks(), SeedRecords())
    ensures Drifted(SeedBooks(), SeedRecords()) == {0, 1, 2, 3, 4}
    ensures var fixed := RepairedAll(SeedBooks(), SeedRecords());
      && fixed.Keys == {0, 1, 2, 3, 4}
      && fixed[0].availableQuantity == 4 && fixed[1].availableQuantity == 3
      && fixed[2].availableQuantity == 3 && fixed[3].availableQuantity == 2
      && fixed[4].availableQuantity == 3
      && Consistent(fixed, SeedRecords())
  {
    var books, rs := SeedBooks(), SeedRecords();
    SeedActiveCounts();
    assert books.Keys == {0, 1, 2, 3, 4};
    forall id | id in books
      ensures books[id].availableQuantity != books[id].quantity - ActiveCount(rs, id)
    {
    }
    assert Drifted(books, rs) == books.Keys;
    var fixed := RepairedAll(books, rs);
    assert fixed[0] == Repaired(books[0], 1) && fixed[2] == Repaired(books[2], 1);
    assert fixed[1] == Repaired(books[1], 0) && fixed[3] == Repaired(books[3], 0) && fixed[4] == Repaired(books[4], 0);
    RepairIdempotent(books, rs);
  }
}
