/**
 * Reads over the borrow-record table and the paging of catalogue searches: counting
 * active loans, filtering, the orders the queries ask for, and skip/take paging.
 */
module BookQueries {
  import opened Wrappers
  import opened Entities

  /** An active loan of book `id`: a record for it whose status is `borrowed`. */
  predicate IsActive(r: BorrowRecord, id: BookId) {
    r.bookId == id && r.status == Borrowed
  }

  /** The number of records with `bookId == id` and `status == borrowed`, as a count query returns it. */
  function ActiveCount(rs: seq<BorrowRecord>, id: BookId): (n: nat)
    ensures n <= |rs|
    ensures n == 0 <==> forall i | 0 <= i < |rs| :: !IsActive(rs[i], id)
  {
    if rs == [] then 0
    else
      var init := rs[..|rs| - 1];
      assert forall i | 0 <= i < |init| :: init[i] == rs[i];
      ActiveCount(init, id) + (if IsActive(rs[|rs| - 1], id) then 1 else 0)
  }

  /** Appending a record adds one to the count exactly when the new record is an active loan of the book. */
  lemma {:induction false} ActiveCountAppend(rs: seq<BorrowRecord>, r: BorrowRecord, id: BookId)
    ensures ActiveCount(rs + [r], id) == ActiveCount(rs, id) + (if IsActive(r, id) then 1 else 0)
  {
    assert (rs + [r])[..|rs|] == rs;
  }

  /** Overwriting one record changes the count by what the old and the new record contribute. */
  lemma {:induction false} ActiveCountUpdate(rs: seq<BorrowRecord>, i: nat, r: BorrowRecord, id: BookId)
    requires i < |rs|
    ensures ActiveCount(rs[i := r], id)
         == ActiveCount(rs, id) - (if IsActive(rs[i], id) then 1 else 0) + (if IsActive(r, id) then 1 else 0)
  {
    var n := |rs|;
    var rs' := rs[i := r];
    if i == n - 1 {
      assert rs'[..n - 1] == rs[..n - 1];
    } else {
      assert rs'[..n - 1] == rs[..n - 1][i := r];
      ActiveCountUpdate(rs[..n - 1], i, r, id);
    }
  }

  /** Which rows a query selects. */
  datatype Where = BookIs(id: BookId) | StatusIs(status: BorrowStatus) | BookIsNot(other: BookId)

  predicate Matches(w: Where, r: BorrowRecord) {
    match w
    case BookIs(id) => r.bookId == id
    case StatusIs(s) => r.status == s
    case BookIsNot(id) => r.bookId != id
  }

  /** The rows matching `w`, in table order. */
  function Select(rs: seq<BorrowRecord>, w: Where): (r: seq<BorrowRecord>)
    ensures |r| <= |rs|
    ensures forall i | 0 <= i < |r| :: Matches(w, r[i])
  {
    if rs == [] then []
    else Select(rs[..|rs| - 1], w) + (if Matches(w, rs[|rs| - 1]) then [rs[|rs| - 1]] else [])
  }

  lemma {:induction false} SelectAppend(rs: seq<BorrowRecord>, x: BorrowRecord, w: Where)
    ensures Select(rs + [x], w) == Select(rs, w) + (if Matches(w, x) then [x] else [])
  {
    assert (rs + [x])[..|rs|] == rs;
  }

  /** A query returns every matching row as often as the table holds it, and nothing else. */
  lemma {:induction false} SelectExact(rs: seq<BorrowRecord>, w: Where)
    ensures forall x :: multiset(Select(rs, w))[x] == if Matches(w, x) then multiset(rs)[x] else 0
  {
    if rs != [] {
      var init, last := rs[..|rs| - 1], rs[|rs| - 1];
      assert rs == init + [last];
      assert multiset(rs) == multiset(init) + multiset{last};
      SelectExact(init, w);
      var kept := if Matches(w, last) then [last] else [];
      assert multiset(Select(rs, w)) == multiset(Select(init, w)) + multiset(kept);
    }
  }

  /** Deleting the rows of one book (the cascade) leaves every other book's active count as it was. */
  lemma {:induction false} ActiveCountAfterCascade(rs: seq<BorrowRecord>, gone: BookId, id: BookId)
    ensures ActiveCount(Select(rs, BookIsNot(gone)), id) == if id == gone then 0 else ActiveCount(rs, id)
  {
    if rs != [] {
      var init, last := rs[..|rs| - 1], rs[|rs| - 1];
      ActiveCountAfterCascade(init, gone, id);
      var kept := Select(init, BookIsNot(gone));
      if Matches(BookIsNot(gone), last) {
        ActiveCountAppend(kept, last, id);
      } else {
        assert kept + [] == kept;
      }
    }
  }

  /** The orders the record queries ask the database for. */
  datatype OrderBy = BorrowDateDesc | ReturnDateDesc

  /**
   * `a` may be listed before `b`. A missing return date sorts as the smallest value,
   * as SQLite does, so it comes last in a descending order.
   */
  predicate Precedes(o: OrderBy, a: BorrowRecord, b: BorrowRecord) {
    match o
    case BorrowDateDesc => a.borrowDate >= b.borrowDate
    case ReturnDateDesc =>
      match (a.actualReturnDate, b.actualReturnDate)
      case (Some(x), Some(y)) => x >= y
      case (Some(_), None) => true
      case (None, Some(_)) => false
      case (None, None) => true
  }

  predicate SortedBy(o: OrderBy, rs: seq<BorrowRecord>) {
    forall i, j | 0 <= i < j < |rs| :: Precedes(o, rs[i], rs[j])
  }

  lemma PrecedesTotal(o: OrderBy, a: BorrowRecord, b: BorrowRecord)
    ensures Precedes(o, a, b) || Precedes(o, b, a)
  {
  }

  lemma PrecedesTransitive(o: OrderBy, a: BorrowRecord, b: BorrowRecord, c: BorrowRecord)
    requires Precedes(o, a, b) && Precedes(o, b, c)
    ensures Precedes(o, a, c)
  {
  }

  /** `a` may be listed before every row of `s`. */
  predicate PrecedesAll(o: OrderBy, a: BorrowRecord, s: seq<BorrowRecord>) {
    forall k | 0 <= k < |s| :: Precedes(o, a, s[k])
  }

  lemma SortedCons(o: OrderBy, a: BorrowRecord, s: seq<BorrowRecord>)
    requires PrecedesAll(o, a, s) && SortedBy(o, s)
    ensures SortedBy(o, [a] + s)
  {
    var t := [a] + s;
    forall i, j | 0 <= i < j < |t| ensures Precedes(o, t[i], t[j]) {
      if i > 0 {
        assert t[i] == s[i - 1] && t[j] == s[j - 1];
      } else {
        assert t[j] == s[j - 1];
      }
    }
  }

  /** A row that precedes the head of a sorted sequence precedes all of it. */
  lemma PrecedesHead(o: OrderBy, a: BorrowRecord, s: seq<BorrowRecord>)
    requires s != [] && SortedBy(o, s) && Precedes(o, a, s[0])
    ensures PrecedesAll(o, a, s)
  {
    forall k | 0 <= k < |s| ensures Precedes(o, a, s[k]) {
      if k > 0 { PrecedesTransitive(o, a, s[0], s[k]); }
    }
  }

  /** Preceding every row is a property of the multiset of rows. */
  lemma PrecedesAllPermuted(o: OrderBy, a: BorrowRecord, s: seq<BorrowRecord>, x: BorrowRecord, t: seq<BorrowRecord>)
    requires PrecedesAll(o, a, s) && Precedes(o, a, x)
    requires multiset(t) == multiset(s) + multiset{x}
    ensures PrecedesAll(o, a, t)
  {
    forall k | 0 <= k < |t| ensures Precedes(o, a, t[k]) {
      assert t[k] in multiset(t);
      if t[k] != x {
        assert t[k] in multiset(s);
        var j :| 0 <= j < |s| && s[j] == t[k];
      }
    }
  }

  function Insert(o: OrderBy, x: BorrowRecord, rs: seq<BorrowRecord>): (r: seq<BorrowRecord>)
    requires SortedBy(o, rs)
    ensures SortedBy(o, r)
    ensures multiset(r) == multiset(rs) + multiset{x}
  {
    if rs == [] then [x]
    else if Precedes(o, x, rs[0]) then
      PrecedesHead(o, x, rs);
      SortedCons(o, x, rs);
      [x] + rs
    else
      var head, rest := rs[0], rs[1..];
      assert rs == [head] + rest;
      assert SortedBy(o, rest);
      var tail := Insert(o, x, rest);
      PrecedesTotal(o, x, head);
      assert PrecedesAll(o, head, rest);
      PrecedesAllPermuted(o, head, rest, x, tail);
      SortedCons(o, head, tail);
      [head] + tail
  }

  /**
   * The rows in the requested order: a permutation of `rs`, sorted. Rows the order ties
   * may come in either order, as they do from the database.
   */
  function Sort(o: OrderBy, rs: seq<BorrowRecord>): (r: seq<BorrowRecord>)
    ensures SortedBy(o, r)
    ensures multiset(r) == multiset(rs)
  {
    if rs == [] then []
    else
      assert rs == [rs[0]] + rs[1..];
      Insert(o, rs[0], Sort(o, rs[1..]))
  }

  /** Record `i` is an active loan of book `id` with the latest borrow date among its active loans. */
  predicate IsLatestActive(rs: seq<BorrowRecord>, id: BookId, i: int) {
    && 0 <= i < |rs|
    && IsActive(rs[i], id)
    && forall j | 0 <= j < |rs| && IsActive(rs[j], id) :: rs[j].borrowDate <= rs[i].borrowDate
  }

  /**
   * The first row of "active loans of `id`, newest borrow date first": an index with the
   * latest borrow date, or none when the book has no active loan.
   */
  function LatestActive(rs: seq<BorrowRecord>, id: BookId): (r: Option<nat>)
    ensures r.None? <==> ActiveCount(rs, id) == 0
    ensures r.Some? ==> IsLatestActive(rs, id, r.value)
  {
    if rs == [] then None
    else
      var n := |rs|;
      var init := rs[..n - 1];
      assert forall i | 0 <= i < |init| :: init[i] == rs[i];
      var prev := LatestActive(init, id);
      if IsActive(rs[n - 1], id) && (prev.None? || rs[prev.value].borrowDate <= rs[n - 1].borrowDate)
      then Some(n - 1)
      else prev
  }

  // ---- Paging of the catalogue search (skip/take) ----

  /** The rows skipped before page `page` of `limit` rows. */
  function Offset(page: int, limit: int): int {
    (page - 1) * limit
  }

  /** The number of pages, `ceil(total / limit)`. */
  function TotalPages(total: nat, limit: int): (n: nat)
    requires limit >= 1
    ensures n * limit >= total
    ensures n > 0 ==> (n - 1) * limit < total
    ensures n == 0 <==> total == 0
  {
    var n := (total + limit - 1) / limit;
    assert n * limit <= total + limit - 1 < (n + 1) * limit;
    n
  }

  /** `skip(offset).take(limit)` over the matching rows. */
  function PageOf<T>(rows: seq<T>, offset: nat, limit: nat): (r: seq<T>)
    ensures |r| == if offset >= |rows| then 0 else if offset + limit <= |rows| then limit else |rows| - offset
    ensures forall k | 0 <= k < |r| :: offset + k < |rows| && r[k] == rows[offset + k]
  {
    if offset >= |rows| then []
    else if offset + limit <= |rows| then rows[offset..offset + limit]
    else rows[offset..]
  }

  /** Pages `page`, `page + 1`, ... up to the last page, one after the other. */
  function PagesFrom<T>(rows: seq<T>, limit: int, page: int): seq<T>
    requires limit >= 1 && page >= 1
    decreases TotalPages(|rows|, limit) - page + 1
  {
    if page > TotalPages(|rows|, limit) then []
    else PageOf(rows, Offset(page, limit), limit) + PagesFrom(rows, limit, page + 1)
  }

  /** From page `page` on, the pages hold exactly the rows from that page's offset on. */
  lemma {:induction false} PagesFromSuffix<T>(rows: seq<T>, limit: int, page: int)
    requires limit >= 1 && page >= 1
    ensures Offset(page, limit) >= 0
    ensures PagesFrom(rows, limit, page) == if Offset(page, limit) >= |rows| then [] else rows[Offset(page, limit)..]
    decreases TotalPages(|rows|, limit) - page + 1
  {
    var n := TotalPages(|rows|, limit);
    var off := Offset(page, limit);
    assert off == page * limit - limit;
    assert off >= 0 by {
      MulMonotone(page, 1, limit);
    }
    if page > n {
      assert (page - 1) * limit >= n * limit by {
        MulMonotone(page - 1, n, limit);
      }
    } else {
      assert (page - 1) * limit < |rows| by {
        MulMonotone(n - 1, page - 1, limit);
      }
      var next := Offset(page + 1, limit);
      assert next == off + limit;
      PagesFromSuffix(rows, limit, page + 1);
      if off + limit <= |rows| {
        assert rows[off..] == rows[off..off + limit] + (if next >= |rows| then [] else rows[next..]);
      } else {
        assert next >= |rows|;
        assert PageOf(rows, off, limit) == rows[off..];
        assert rows[off..] + [] == rows[off..];
      }
    }
  }

  lemma MulMonotone(a: int, b: int, c: int)
    requires a >= b && c >= 0
    ensures a * c >= b * c
  {
  }

  /** Paging through every page from the first to `totalPages` returns each matching row once, in order. */
  lemma PagesCoverAllRows<T>(rows: seq<T>, limit: int)
    requires limit >= 1
    ensures PagesFrom(rows, limit, 1) == rows
  {
    PagesFromSuffix(rows, limit, 1);
    assert rows[0..] == rows;
  }

  /** A page is empty exactly when it lies past the last page. */
  lemma {:induction false} PageEmptyIffPastEnd<T>(rows: seq<T>, limit: int, page: int)
    requires limit >= 1 && page >= 1
    ensures Offset(page, limit) >= 0
    ensures PageOf(rows, Offset(page, limit), limit) == [] <==> page > TotalPages(|rows|, limit)
  {
    var n := TotalPages(|rows|, limit);
    assert Offset(page, limit) >= 0 by {
      MulMonotone(page, 1, limit);
    }
    if page > n {
      MulMonotone(page - 1, n, limit);
    } else {
      MulMonotone(n - 1, page - 1, limit);
    }
  }

  /** What a catalogue search returns. */
  datatype SearchPage<T> = SearchPage(rows: seq<T>, total: nat, page: int, limit: int, totalPages: nat)
}
