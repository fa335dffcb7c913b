/**
 * What the front end keeps in its store besides plain entries: the recent-search list, the
 * recently viewed books and the login token. Both lists are most-recently-used lists: the new
 * entry goes first, any earlier copy of it is dropped, and the list is cut to a fixed length.
 */
module ClientLists {
  import opened Wrappers
  import opened Entities
  import opened ClientStorage

  const SearchHistoryKey: string := "search_history"
  const RecentBooksKey: string := "recent_books"
  const AuthTokenKey: string := "auth_token"

  /** Search history lives a week, the recent books a day. */
  const SearchHistoryMinutes: int := 60 * 24 * 7
  const RecentBooksMinutes: int := 60 * 24

  const SearchHistoryCap: nat := 10
  const RecentBooksCap: nat := 5

  /**
   * The shapes of value the front end stores: the token, the search strings, the recent books,
   * and any other JSON document (the signed-in user), which is an object and so truthy.
   */
  datatype Value = Token(token: string) | Searches(searches: seq<string>) | Books(books: seq<Book>) | Document(json: string)

  // ---- Most-recently-used lists ----

  /** The elements of `xs` whose key is not `k`, in their order (`filter(x => key(x) !== k)`). */
  function Without<T, K(==)>(xs: seq<T>, key: T -> K, k: K): (r: seq<T>)
    ensures |r| <= |xs|
    ensures forall i | 0 <= i < |r| :: key(r[i]) != k
    ensures forall i | 0 <= i < |r| :: r[i] in xs
  {
    if xs == [] then []
    else if key(xs[0]) == k then Without(xs[1..], key, k)
    else [xs[0]] + Without(xs[1..], key, k)
  }

  /** The filter keeps every element whose key differs, as often as it occurs, and nothing else. */
  lemma {:induction false} WithoutCounts<T, K>(xs: seq<T>, key: T -> K, k: K)
    ensures multiset(Without(xs, key, k)) <= multiset(xs)
    ensures forall y | y in xs && key(y) != k :: multiset(Without(xs, key, k))[y] == multiset(xs)[y]
  {
    if xs != [] {
      assert xs == [xs[0]] + xs[1..];
      WithoutCounts(xs[1..], key, k);
    }
  }

  /** The filter keeps the order of what it keeps: filtering a concatenation filters each part. */
  lemma {:induction false} WithoutAppend<T, K>(a: seq<T>, b: seq<T>, key: T -> K, k: K)
    ensures Without(a + b, key, k) == Without(a, key, k) + Without(b, key, k)
  {
    if a != [] {
      assert (a + b)[1..] == a[1..] + b;
      WithoutAppend(a[1..], b, key, k);
    } else {
      assert a + b == b;
    }
  }

  /** `[x, ...xs.filter(y => key(y) !== key(x))].slice(0, cap)`. */
  function MoveToFront<T, K(==)>(xs: seq<T>, x: T, key: T -> K, cap: nat): seq<T> {
    var all := [x] + Without(xs, key, key(x));
    if |all| <= cap then all else all[..cap]
  }

  /** No two elements share a key. */
  predicate KeysDistinct<T, K(==)>(xs: seq<T>, key: T -> K) {
    forall i, j | 0 <= i < j < |xs| :: key(xs[i]) != key(xs[j])
  }

  /** Dropping a key that no element has changes nothing. */
  lemma {:induction false} WithoutAbsent<T, K>(xs: seq<T>, key: T -> K, k: K)
    requires forall i | 0 <= i < |xs| :: key(xs[i]) != k
    ensures Without(xs, key, k) == xs
  {
    if xs != [] {
      WithoutAbsent(xs[1..], key, k);
    }
  }

  /** Filtering keeps distinct keys distinct. */
  lemma {:induction false} WithoutKeepsDistinct<T, K>(xs: seq<T>, key: T -> K, k: K)
    requires KeysDistinct(xs, key)
    ensures KeysDistinct(Without(xs, key, k), key)
  {
    if xs != [] {
      var rest := Without(xs[1..], key, k);
      assert KeysDistinct(xs[1..], key) by {
        forall i, j | 0 <= i < j < |xs[1..]| ensures key(xs[1..][i]) != key(xs[1..][j]) {
          assert xs[1..][i] == xs[i + 1] && xs[1..][j] == xs[j + 1];
        }
      }
      WithoutKeepsDistinct(xs[1..], key, k);
      if key(xs[0]) != k {
        forall m | 0 <= m < |rest| ensures key(rest[m]) != key(xs[0]) {
          var n :| 0 <= n < |xs[1..]| && xs[1..][n] == rest[m];
          assert xs[n + 1] == rest[m];
        }
        var r := [xs[0]] + rest;
        forall i, j | 0 <= i < j < |r| ensures key(r[i]) != key(r[j]) {
          if i == 0 {
            assert r[j] == rest[j - 1];
          } else {
            assert r[i] == rest[i - 1] && r[j] == rest[j - 1];
          }
        }
      }
    }
  }

  /**
   * The new element comes first, exactly once by key, followed by the earlier list without
   * it, in its old order; the result has at most `cap` elements.
   */
  lemma MoveToFrontShape<T, K>(xs: seq<T>, x: T, key: T -> K, cap: nat)
    requires cap >= 1
    ensures var r := MoveToFront(xs, x, key, cap);
      && |r| == (if 1 + |Without(xs, key, key(x))| <= cap then 1 + |Without(xs, key, key(x))| else cap)
      && r[0] == x
      && (forall i | 1 <= i < |r| :: key(r[i]) != key(x) && r[i] in xs)
      && r[1..] <= Without(xs, key, key(x))
  {
    var w := Without(xs, key, key(x));
    var r := MoveToFront(xs, x, key, cap);
    forall i | 1 <= i < |r| ensures r[i] == w[i - 1] {
    }
  }

  /** A list with distinct keys stays so. */
  lemma MoveToFrontKeepsDistinct<T, K>(xs: seq<T>, x: T, key: T -> K, cap: nat)
    requires KeysDistinct(xs, key)
    ensures KeysDistinct(MoveToFront(xs, x, key, cap), key)
  {
    var w := Without(xs, key, key(x));
    WithoutKeepsDistinct(xs, key, key(x));
    var all := [x] + w;
    forall i, j | 0 <= i < j < |all| ensures key(all[i]) != key(all[j]) {
      if i == 0 {
        assert all[j] == w[j - 1];
      } else {
        assert all[i] == w[i - 1] && all[j] == w[j - 1];
      }
    }
    var r := MoveToFront(xs, x, key, cap);
    forall i, j | 0 <= i < j < |r| ensures key(r[i]) != key(r[j]) {
      assert r[i] == all[i] && r[j] == all[j];
    }
  }

  /** Adding the element that is already most recent changes nothing. */
  lemma MoveToFrontIdempotent<T, K>(xs: seq<T>, x: T, key: T -> K, cap: nat)
    requires cap >= 1
    ensures MoveToFront(MoveToFront(xs, x, key, cap), x, key, cap) == MoveToFront(xs, x, key, cap)
  {
    var r := MoveToFront(xs, x, key, cap);
    MoveToFrontShape(xs, x, key, cap);
    assert r == [x] + r[1..];
    assert Without(r, key, key(x)) == Without(r[1..], key, key(x));
    WithoutAbsent(r[1..], key, key(x));
  }

  /** `addSearch`: the search first, its earlier copy dropped, ten at most. */
  function AddSearchTo(history: seq<string>, search: string): seq<string> {
    MoveToFront(history, search, (s: string) => s, SearchHistoryCap)
  }

  /** `addRecentBook`: the book first, any earlier entry with its id dropped, five at most. */
  function AddRecentBookTo(recent: seq<Book>, book: Book): seq<Book> {
    MoveToFront(recent, book, (b: Book) => b.id, RecentBooksCap)
  }

  /** The search list is a most-recently-used list without repeats, of at most ten entries. */
  lemma AddSearchProperties(history: seq<string>, search: string)
    ensures var r := AddSearchTo(history, search);
      && 1 <= |r| <= SearchHistoryCap && r[0] == search
      && (forall i | 1 <= i < |r| :: r[i] != search && r[i] in history)
      && r[1..] <= Without(history, (s: string) => s, search)
      && AddSearchTo(r, search) == r
    ensures KeysDistinct(history, (s: string) => s) ==> KeysDistinct(AddSearchTo(history, search), (s: string) => s)
  {
    MoveToFrontShape(history, search, (s: string) => s, SearchHistoryCap);
    MoveToFrontIdempotent(history, search, (s: string) => s, SearchHistoryCap);
    if KeysDistinct(history, (s: string) => s) {
      MoveToFrontKeepsDistinct(history, search, (s: string) => s, SearchHistoryCap);
    }
  }

  /** The recent-book list holds each id once, the newest book first, five books at most. */
  lemma AddRecentBookProperties(recent: seq<Book>, book: Book)
    ensures var r := AddRecentBookTo(recent, book);
      && 1 <= |r| <= RecentBooksCap && r[0] == book
      && (forall i | 1 <= i < |r| :: r[i].id != book.id && r[i] in recent)
      && r[1..] <= Without(recent, (b: Book) => b.id, book.id)
      && AddRecentBookTo(r, book) == r
    ensures KeysDistinct(recent, (b: Book) => b.id) ==> KeysDistinct(AddRecentBookTo(recent, book), (b: Book) => b.id)
  {
    MoveToFrontShape(recent, book, (b: Book) => b.id, RecentBooksCap);
    MoveToFrontIdempotent(recent, book, (b: Book) => b.id, RecentBooksCap);
    if KeysDistinct(recent, (b: Book) => b.id) {
      MoveToFrontKeepsDistinct(recent, book, (b: Book) => b.id, RecentBooksCap);
    }
  }

  // ---- The stored lists and the token ----

  /** `getSearchHistory`: the stored list, or the empty list when there is none. */
  function SearchHistory(v: Option<Value>): seq<string> {
    if v.Some? && v.value.Searches? then v.value.searches else []
  }

  /** `getRecentBooks`: the stored list, or the empty list when there is none. */
  function RecentBooks(v: Option<Value>): seq<Book> {
    if v.Some? && v.value.Books? then v.value.books else []
  }

  /** JavaScript truthiness of what `get` returns: null and the empty string are falsy. */
  predicate Truthy(v: Option<Value>) {
    v.Some? && (v.value.Token? ==> v.value.token != "")
  }

  // The three operations below work on the shared instance, whose prefix is the default one.

  /** `bookStorage.addSearch`: reads the history (dropping it if stale) and writes the new one. */
  method AddSearch(st: Storage<Value>, search: string, now: int)
    requires st.prefix == DefaultPrefix
    modifies st
    ensures st.local == old(st.local)[st.Key(SearchHistoryKey) :=
      Item(Searches(AddSearchTo(SearchHistory(Lookup(old(st.local), st.Key(SearchHistoryKey), now)), search)),
           Some(now + SearchHistoryMinutes * MillisPerMinute))]
  {
    ghost var before := st.local;
    var stored := st.Get(SearchHistoryKey, now);
    var history := SearchHistory(stored);
    PruneThenSet(before, st.Key(SearchHistoryKey), now,
      Item(Searches(AddSearchTo(history, search)), ExpiryFor(now, Some(SearchHistoryMinutes))));
    st.Set(SearchHistoryKey, Searches(AddSearchTo(history, search)), Some(SearchHistoryMinutes), now);
  }

  /** `bookStorage.addRecentBook`: reads the recent books (dropping them if stale) and writes the new list. */
  method AddRecentBook(st: Storage<Value>, book: Book, now: int)
    requires st.prefix == DefaultPrefix
    modifies st
    ensures st.local == old(st.local)[st.Key(RecentBooksKey) :=
      Item(Books(AddRecentBookTo(RecentBooks(Lookup(old(st.local), st.Key(RecentBooksKey), now)), book)),
           Some(now + RecentBooksMinutes * MillisPerMinute))]
  {
    ghost var before := st.local;
    var stored := st.Get(RecentBooksKey, now);
    var recent := RecentBooks(stored);
    PruneThenSet(before, st.Key(RecentBooksKey), now,
      Item(Books(AddRecentBookTo(recent, book)), ExpiryFor(now, Some(RecentBooksMinutes))));
    st.Set(RecentBooksKey, Books(AddRecentBookTo(recent, book)), Some(RecentBooksMinutes), now);
  }

  /** `authStorage.isAuthenticated`: a non-empty token is stored and not stale. */
  method IsAuthenticated(st: Storage<Value>, now: int) returns (b: bool)
    requires st.prefix == DefaultPrefix
    modifies st
    ensures b <==> Truthy(Lookup(old(st.local), st.Key(AuthTokenKey), now))
    ensures st.local == Pruned(old(st.local), st.Key(AuthTokenKey), now)
  {
    var token := st.Get(AuthTokenKey, now);
    b := Truthy(token);
  }

  /** A stored search list is read back for the week it lives, and then it is gone. */
  lemma SearchHistoryLifetime(store: map<string, Item<Value>>, k: string, l: seq<string>, now: int, later: int)
    requires now + SearchHistoryMinutes * MillisPerMinute != 0
    ensures var s := store[k := Item(Searches(l), Some(now + SearchHistoryMinutes * MillisPerMinute))];
      SearchHistory(Lookup(s, k, later)) == if later <= now + SearchHistoryMinutes * MillisPerMinute then l else []
  {
  }

  /** With a token stored (`setToken`, no expiry), the user is signed in exactly when it is non-empty; after `removeToken`, not. */
  lemma SignedInIffToken(store: map<string, Item<Value>>, k: string, token: string, now: int)
    ensures Truthy(Lookup(store[k := Item(Token(token), ExpiryFor(now, None))], k, now)) <==> token != ""
    ensures !Truthy(Lookup(store - {k}, k, now))
  {
  }
}
