/**
 * The lending core of the e-library: books, users and the library that
 * owns the catalog (an ordered list of books) and the registry (user id
 * to user).  A book's availability flag and the users' held lists are
 * kept consistent by the library's borrow and return operations.
 */
module ELibrary {
  import opened Wrappers

  /** What a library operation reports, in place of the messages it prints. */
  datatype Outcome =
    | Registered
    | DuplicateUser
    | Borrowed(book: Book)
    | AlreadyBorrowed(isbn: string)
    | NotFound(isbn: string)
    | Returned(book: Book)
    | NotHeld(isbn: string)

  /** A catalog entry: immutable bibliographic data and a mutable availability flag. */
  class Book {
    const title: string
    const author: string
    const isbn: string
    const category: string
    var isBorrowed: bool

    constructor (title: string, author: string, isbn: string, category: string)
      ensures this.title == title && this.author == author
      ensures this.isbn == isbn && this.category == category
      ensures !isBorrowed
    {
      this.title := title;
      this.author := author;
      this.isbn := isbn;
      this.category := category;
      isBorrowed := false;
    }

    method SetBorrowed(borrowed: bool)
      modifies this
      ensures isBorrowed == borrowed
    {
      isBorrowed := borrowed;
    }
  }

  /** A registered reader: credentials and the books currently held, oldest borrow first. */
  class User {
    const userId: string
    const password: string
    const name: string
    var borrowedBooks: seq<Book>

    constructor (userId: string, password: string, name: string)
      ensures this.userId == userId && this.password == password && this.name == name
      ensures borrowedBooks == []
    {
      this.userId := userId;
      this.password := password;
      this.name := name;
      borrowedBooks := [];
    }

    /** Plain-text credential check: accepted exactly when the candidate is the stored password. */
    function CheckPassword(candidate: string): (ok: bool)
      ensures ok <==> candidate == password
    {
      password == candidate
    }

    method BorrowBook(book: Book)
      modifies this
      ensures borrowedBooks == old(borrowedBooks) + [book]
    {
      borrowedBooks := borrowedBooks + [book];
    }

    /** `List.remove(Object)`: drops the first occurrence, compared by reference. */
    method ReturnBook(book: Book)
      modifies this
      ensures borrowedBooks == RemoveFirst(old(borrowedBooks), book)
    {
      borrowedBooks := RemoveFirst(borrowedBooks, book);
    }
  }

  /** The list without its first occurrence of x; the list itself when x does not occur. */
  function RemoveFirst<T(==)>(s: seq<T>, x: T): (r: seq<T>)
    ensures x !in s ==> r == s
    ensures x in s ==> |r| == |s| - 1
  {
    if s == [] then []
    else if s[0] == x then s[1..]
    else [s[0]] + RemoveFirst(s[1..], x)
  }

  /** Removing the first occurrence takes exactly one copy of x out of the list's multiset. */
  lemma {:induction false} RemoveFirstCounts<T>(s: seq<T>, x: T)
    ensures multiset(RemoveFirst(s, x)) == multiset(s) - multiset{x}
  {
    if s != [] {
      assert s == [s[0]] + s[1..];
      if s[0] != x {
        RemoveFirstCounts(s[1..], x);
      }
    }
  }

  /**
   * Removal cuts the list at the first occurrence of x, position i: the
   * elements before it and after it stay, in their order.
   */
  lemma {:induction false} RemoveFirstAt<T>(s: seq<T>, x: T, i: nat)
    requires i < |s| && s[i] == x && x !in s[..i]
    ensures RemoveFirst(s, x) == s[..i] + s[i + 1..]
  {
    if i > 0 {
      assert s[0] in s[..i];
      RemoveFirstAt(s[1..], x, i - 1);
      assert s[1..][..i - 1] == s[1..i];
      assert s[..i] == [s[0]] + s[1..i];
    }
  }

  /** Appending x to a list without x and removing it again gives the list back. */
  lemma {:induction false} RemoveFirstOfAppended<T>(s: seq<T>, x: T)
    requires x !in s
    ensures RemoveFirst(s + [x], x) == s
  {
    if s == [] {
      assert s + [x] == [x];
    } else {
      assert (s + [x])[0] == s[0] && (s + [x])[1..] == s[1..] + [x];
      RemoveFirstOfAppended(s[1..], x);
      assert s == [s[0]] + s[1..];
    }
  }

  /** Index of the first book carrying the isbn, as the loops over the catalog and held lists find it. */
  function FirstIndex(bs: seq<Book>, isbn: string): (r: Option<nat>)
    ensures r.Some? ==> r.value < |bs| && bs[r.value].isbn == isbn
    ensures r.Some? ==> forall j | 0 <= j < r.value :: bs[j].isbn != isbn
    ensures r.None? ==> forall j | 0 <= j < |bs| :: bs[j].isbn != isbn
  {
    if bs == [] then None
    else if bs[0].isbn == isbn then Some(0)
    else match FirstIndex(bs[1..], isbn)
      case None => None
      case Some(i) => Some(i + 1)
  }

  /** Appending to a catalog never changes which entry is the first one with an isbn already present. */
  lemma FirstIndexOfAppended(bs: seq<Book>, b: Book, isbn: string)
    requires FirstIndex(bs, isbn).Some?
    ensures FirstIndex(bs + [b], isbn) == FirstIndex(bs, isbn)
  {
    var i := FirstIndex(bs, isbn).value;
    assert (bs + [b])[i] == bs[i];
    assert forall j | 0 <= j < i :: (bs + [b])[j] == bs[j];
  }

  /** A book appended to a list with no other copy of its isbn is the first entry with that isbn. */
  lemma {:induction false} FirstIndexOfNewIsbn(bs: seq<Book>, b: Book)
    requires forall c | c in bs :: c.isbn != b.isbn
    ensures FirstIndex(bs + [b], b.isbn) == Some(|bs|)
  {
    if bs != [] {
      assert (bs + [b])[1..] == bs[1..] + [b];
      FirstIndexOfNewIsbn(bs[1..], b);
    }
  }

  /** b is the first catalog entry carrying b's isbn, so a borrow by that isbn reaches b. */
  ghost predicate IsFirstWithIsbn(bs: seq<Book>, b: Book) {
    match FirstIndex(bs, b.isbn)
    case None => false
    case Some(i) => bs[i] == b
  }

  /** No element occurs twice. */
  ghost predicate NoDuplicates<T>(s: seq<T>)
    decreases |s|
  {
    s == [] || (s[0] !in s[1..] && NoDuplicates(s[1..]))
  }

  /** The available books of bs, in order. */
  function AvailableIn(bs: seq<Book>): (r: seq<Book>)
    reads bs
    decreases |bs|
  {
    if bs == [] then []
    else
      var last := bs[|bs| - 1];
      AvailableIn(bs[..|bs| - 1]) + (if last.isBorrowed then [] else [last])
  }

  /** ASCII case folding (the model's stand-in for Java's `equalsIgnoreCase`). */
  function ToLowerAscii(c: char): (d: char)
    ensures 'A' <= c <= 'Z' ==> d as int == c as int + 32
    ensures !('A' <= c <= 'Z') ==> d == c
  {
    if 'A' <= c <= 'Z' then (c as int + 32) as char else c
  }

  predicate EqualsIgnoreCase(a: string, b: string) {
    |a| == |b| && forall i | 0 <= i < |a| :: ToLowerAscii(a[i]) == ToLowerAscii(b[i])
  }

  function LowerAscii(s: string): (r: string)
    ensures |r| == |s| && forall i | 0 <= i < |s| :: r[i] == ToLowerAscii(s[i])
  {
    seq(|s|, i requires 0 <= i < |s| => ToLowerAscii(s[i]))
  }

  /** Case-insensitive equality is equality of the lower-cased strings, hence an equivalence. */
  lemma EqualsIgnoreCaseIsLowerEquality(a: string, b: string)
    ensures EqualsIgnoreCase(a, b) <==> LowerAscii(a) == LowerAscii(b)
  {
    if LowerAscii(a) == LowerAscii(b) {
      assert |a| == |b|;
      forall i | 0 <= i < |a| ensures ToLowerAscii(a[i]) == ToLowerAscii(b[i]) {
        assert LowerAscii(a)[i] == LowerAscii(b)[i];
      }
    }
  }

  /** The books of bs whose category equals the given one ignoring case, in order. */
  function InCategory(bs: seq<Book>, category: string): (r: seq<Book>)
    decreases |bs|
  {
    if bs == [] then []
    else
      var last := bs[|bs| - 1];
      InCategory(bs[..|bs| - 1], category) + (if EqualsIgnoreCase(last.category, category) then [last] else [])
  }

  /** A book is listed as available exactly when it is in the list and not borrowed. */
  lemma {:induction false} AvailableInMembers(bs: seq<Book>, b: Book)
    ensures b in AvailableIn(bs) <==> b in bs && !b.isBorrowed
    decreases |bs|
  {
    if bs != [] {
      var front := bs[..|bs| - 1];
      AvailableInMembers(front, b);
      assert bs == front + [bs[|bs| - 1]];
    }
  }

  /** The available listing keeps catalog order: it distributes over concatenation. */
  lemma {:induction false} AvailableInConcat(a: seq<Book>, b: seq<Book>)
    ensures AvailableIn(a + b) == AvailableIn(a) + AvailableIn(b)
    decreases |b|
  {
    if b == [] {
      assert a + b == a;
    } else {
      var front := b[..|b| - 1];
      AvailableInConcat(a, front);
      assert (a + b)[..|a + b| - 1] == a + front;
    }
  }

  /** A book is listed in a category exactly when it is in the list and its category matches ignoring case. */
  lemma {:induction false} InCategoryMembers(bs: seq<Book>, category: string, b: Book)
    ensures b in InCategory(bs, category) <==> b in bs && EqualsIgnoreCase(b.category, category)
    decreases |bs|
  {
    if bs != [] {
      var front := bs[..|bs| - 1];
      InCategoryMembers(front, category, b);
      assert bs == front + [bs[|bs| - 1]];
    }
  }

  /** The category listing keeps catalog order: it distributes over concatenation. */
  lemma {:induction false} InCategoryConcat(a: seq<Book>, b: seq<Book>, category: string)
    ensures InCategory(a + b, category) == InCategory(a, category) + InCategory(b, category)
    decreases |b|
  {
    if b == [] {
      assert a + b == a;
    } else {
      var front := b[..|b| - 1];
      InCategoryConcat(a, front, category);
      assert (a + b)[..|a + b| - 1] == a + front;
    }
  }

  /**
   * The lending invariant, over a snapshot of a library: its catalog, its
   * registry, each registered user's held list (by id) and, as ghost
   * bookkeeping, the holder of each borrowed book.  Registry keys are the
   * users' own ids; a book has a holder exactly when it sits in that
   * holder's list; every held book is the first catalog entry with its
   * isbn; no held list repeats a book.
   */
  ghost predicate Consistent(books: seq<Book>, users: map<string, User>,
                             held: map<string, seq<Book>>, holder: map<Book, string>)
  {
    && held.Keys == users.Keys
    && KeyedById(users)
    && (forall b {:trigger IsFirstWithIsbn(books, b)} | b in holder :: IsFirstWithIsbn(books, b))
    && HolderMatchesLists(held, holder)
    && ListsDistinct(held)
  }

  /** The holder map and the held lists tell the same story: b is in k's list exactly when k holds b. */
  ghost predicate HolderMatchesLists(held: map<string, seq<Book>>, holder: map<Book, string>) {
    && (forall b | b in holder :: holder[b] in held && b in held[holder[b]])
    && (forall k, b | k in held && b in held[k] :: b in holder && holder[b] == k)
  }

  /** No held list repeats a book. */
  ghost predicate ListsDistinct(held: map<string, seq<Book>>) {
    forall k {:trigger NoDuplicates(held[k])} | k in held :: NoDuplicates(held[k])
  }

  /** Every registry key is the id of the user stored under it. */
  ghost predicate KeyedById(users: map<string, User>) {
    forall k | k in users :: users[k].userId == k
  }

  /** The ids whose held list contains b. */
  function HoldersIn(held: map<string, seq<Book>>, b: Book): (ids: set<string>)
    ensures forall k | k in ids :: k in held && b in held[k]
  {
    set k | k in held && b in held[k]
  }

  /** Every book with a holder is a catalog book. */
  lemma HeldAreInCatalog(books: seq<Book>, holder: map<Book, string>)
    requires forall b | b in holder :: IsFirstWithIsbn(books, b)
    ensures forall b | b in holder :: b in books
  {
    forall b | b in holder ensures b in books {
      assert books[FirstIndex(books, b.isbn).value] == b;
    }
  }

  /** In a consistent library a book has a holder exactly when one user lists it, and none lists it otherwise. */
  lemma ExactlyOneHolder(books: seq<Book>, users: map<string, User>,
                         held: map<string, seq<Book>>, holder: map<Book, string>, b: Book)
    requires Consistent(books, users, held, holder)
    ensures b in holder <==> |HoldersIn(held, b)| == 1
    ensures b !in holder <==> HoldersIn(held, b) == {}
  {
    if b in holder {
      var k := holder[b];
      assert k in HoldersIn(held, b);
      assert HoldersIn(held, b) == {k};
    } else {
      assert HoldersIn(held, b) == {};
    }
  }

  /** Appending a book to the catalog keeps the invariant: the first entry of every isbn stays first. */
  lemma AddKeepsConsistent(books: seq<Book>, users: map<string, User>,
                           held: map<string, seq<Book>>, holder: map<Book, string>, book: Book)
    requires Consistent(books, users, held, holder)
    ensures Consistent(books + [book], users, held, holder)
  {
    forall b | b in holder ensures IsFirstWithIsbn(books + [book], b) {
      assert IsFirstWithIsbn(books, b);
      FirstIndexOfAppended(books, book, b.isbn);
    }
  }

  /** Registering a new id with an empty held list keeps the invariant. */
  lemma RegisterKeepsConsistent(books: seq<Book>, users: map<string, User>,
                                held: map<string, seq<Book>>, holder: map<Book, string>, user: User)
    requires Consistent(books, users, held, holder)
    requires user.userId !in users
    ensures Consistent(books, users[user.userId := user], held[user.userId := []], holder)
  {
    ListsStayDistinct(held, user.userId, [], held[user.userId := []]);
  }

  /** Appending an element that does not occur keeps a list free of duplicates. */
  lemma {:induction false} AppendWithoutDuplicates<T>(s: seq<T>, x: T)
    requires NoDuplicates(s) && x !in s
    ensures NoDuplicates(s + [x])
  {
    if s == [] {
      assert s + [x] == [x] && [x][1..] == [];
    } else {
      assert (s + [x])[0] == s[0] && (s + [x])[1..] == s[1..] + [x];
      AppendWithoutDuplicates(s[1..], x);
    }
  }

  /** Replacing one held list by one without duplicates keeps every list free of duplicates. */
  lemma ListsStayDistinct(held: map<string, seq<Book>>, k: string, list: seq<Book>, held': map<string, seq<Book>>)
    requires ListsDistinct(held) && NoDuplicates(list) && held' == held[k := list]
    ensures ListsDistinct(held')
  {
    forall k' | k' in held' ensures NoDuplicates(held'[k']) {
      if k' != k {
        assert held'[k'] == held[k'];
      }
    }
  }

  /** Lending the first catalog entry of an isbn, while it has no holder, to a registered user keeps the invariant. */
  lemma BorrowKeepsConsistent(books: seq<Book>, users: map<string, User>,
                              held: map<string, seq<Book>>, holder: map<Book, string>, k: string, b: Book)
    requires Consistent(books, users, held, holder)
    requires k in users && b !in holder && IsFirstWithIsbn(books, b)
    ensures Consistent(books, users, held[k := held[k] + [b]], holder[b := k])
  {
    assert b !in held[k];
    AppendWithoutDuplicates(held[k], b);
    var held', holder' := held[k := held[k] + [b]], holder[b := k];
    ListsStayDistinct(held, k, held[k] + [b], held');
    forall c | c in holder' ensures holder'[c] in held' && c in held'[holder'[c]] {
      if c != b && holder[c] == k {
        assert c in held[k];
      }
    }
    forall k', c | k' in held' && c in held'[k'] ensures c in holder' && holder'[c] == k' {
      if k' == k && c !in held[k] {
        assert c == b;
      }
    }
  }

  /** In a list without duplicates, removing x drops x and keeps every other element. */
  lemma {:induction false} RemoveFirstWithoutDuplicates<T>(s: seq<T>, x: T)
    requires NoDuplicates(s) && x in s
    ensures var rest := RemoveFirst(s, x);
            && NoDuplicates(rest) && x !in rest
            && (forall y | y in rest :: y in s)
            && (forall y | y in s && y != x :: y in rest)
  {
    assert s == [s[0]] + s[1..];
    if s[0] != x {
      RemoveFirstWithoutDuplicates(s[1..], x);
      var r := RemoveFirst(s[1..], x);
      assert RemoveFirst(s, x) == [s[0]] + r;
      assert ([s[0]] + r)[0] == s[0] && ([s[0]] + r)[1..] == r;
    }
  }

  /** After b's removal from k's list every listed book still has the list's owner as holder. */
  lemma HoldersOfRemaining(held: map<string, seq<Book>>, holder: map<Book, string>, k: string, b: Book,
                           rest: seq<Book>, held': map<string, seq<Book>>)
    requires HolderMatchesLists(held, holder) && k in held && b in held[k] && held' == held[k := rest]
    requires b !in rest && forall c | c in rest :: c in held[k]
    ensures forall k', c | k' in held' && c in held'[k'] :: c in holder - {b} && (holder - {b})[c] == k'
  {
    forall k', c | k' in held' && c in held'[k'] ensures c in holder - {b} && (holder - {b})[c] == k' {
      if k' == k {
        assert c in held[k];
      } else {
        assert c in held[k'] && holder[b] == k;
      }
    }
  }

  /** After b's removal from k's list every remaining holder still lists its book. */
  lemma ListsOfRemaining(held: map<string, seq<Book>>, holder: map<Book, string>, k: string, b: Book,
                         rest: seq<Book>, held': map<string, seq<Book>>)
    requires HolderMatchesLists(held, holder) && k in held && held' == held[k := rest]
    requires forall c | c in held[k] && c != b :: c in rest
    ensures forall c | c in holder - {b} :: holder[c] in held' && c in held'[holder[c]]
  {
    forall c | c in holder - {b} ensures holder[c] in held' && c in held'[holder[c]] {
      assert c in held[holder[c]];
    }
  }

  /**
   * Taking back a book from a registered user's list keeps the invariant:
   * the book has that user as holder and occurs nowhere else in the list,
   * so removing it and its holder leaves no trace of it.
   */
  lemma ReturnKeepsConsistent(books: seq<Book>, users: map<string, User>,
                              held: map<string, seq<Book>>, holder: map<Book, string>, k: string, b: Book,
                              rest: seq<Book>)
    requires Consistent(books, users, held, holder)
    requires k in held && b in held[k] && rest == RemoveFirst(held[k], b)
    ensures b in holder && b !in rest
    ensures Consistent(books, users, held[k := rest], holder - {b})
  {
    RemoveFirstWithoutDuplicates(held[k], b);
    var held' := held[k := rest];
    ListsStayDistinct(held, k, rest, held');
    HoldersOfRemaining(held, holder, k, b, rest, held');
    ListsOfRemaining(held, holder, k, b, rest, held');
  }

  /** While the first catalog entry of an isbn has no holder, no held list contains any book with that isbn. */
  lemma FreeIsbnIsHeldByNobody(books: seq<Book>, users: map<string, User>,
                               held: map<string, seq<Book>>, holder: map<Book, string>, isbn: string, k: string)
    requires Consistent(books, users, held, holder)
    requires FirstIndex(books, isbn).Some? && books[FirstIndex(books, isbn).value] !in holder
    requires k in held
    ensures forall c | c in held[k] :: c.isbn != isbn
  {
    forall c | c in held[k] ensures c.isbn != isbn {
      assert c in holder && IsFirstWithIsbn(books, c);
      assert books[FirstIndex(books, c.isbn).value] == c;
    }
  }

  /** Giving a fresh key a value and then removing it gives the map back. */
  lemma UnsetAfterSet<K, V>(m: map<K, V>, k: K, v: V)
    requires k !in m
    ensures m[k := v] - {k} == m
  {
  }

  /** Overwriting a map entry and writing its old value back gives the map back. */
  lemma RestoredEntry<K, V>(m: map<K, V>, k: K, v: V)
    requires k in m
    ensures m[k := v][k := m[k]] == m
  {
  }

  /** The library: the catalog in insertion order and the registry keyed by user id. */
  class Library {
    var books: seq<Book>
    var users: map<string, User>
    /** Each registered user's held list, mirrored by user id. */
    ghost var held: map<string, seq<Book>>
    /** Which registered user (by id) holds each borrowed catalog book. */
    ghost var holder: map<Book, string>

    /**
     * The lending invariant over the mirrors, and the mirrors agreeing with
     * the objects: a catalog book's flag is set exactly when it has a
     * holder, and `held` records each registered user's own list.
     */
    ghost predicate Valid()
      reads this, books, users.Values
    {
      && Consistent(books, users, held, holder)
      && (forall b | b in books :: b.isBorrowed <==> b in holder)
      && (forall k | k in users :: users[k].borrowedBooks == held[k])
    }

    /** The ids of the registered users whose held list contains b. */
    ghost function HoldersOf(b: Book): (ids: set<string>)
      reads this, users.Values
      ensures forall k | k in ids :: k in users && b in users[k].borrowedBooks
    {
      set k | k in users && b in users[k].borrowedBooks
    }

    constructor ()
      ensures Valid()
      ensures books == [] && users == map[]
    {
      books := [];
      users := map[];
      held := map[];
      holder := map[];
    }

    /** A catalog book is borrowed exactly when one registered user holds it, and free when none does. */
    lemma BorrowedIffExactlyOneHolder(b: Book)
      requires Valid() && b in books
      ensures b.isBorrowed <==> |HoldersOf(b)| == 1
      ensures !b.isBorrowed <==> HoldersOf(b) == {}
    {
      assert HoldersOf(b) == HoldersIn(held, b);
      ExactlyOneHolder(books, users, held, holder, b);
    }

    /** Every book in a registered user's list is a borrowed catalog book that this user alone holds. */
    lemma HeldBooksAreBorrowed(user: User, b: Book)
      requires Valid() && user.userId in users && users[user.userId] == user
      requires b in user.borrowedBooks
      ensures b in books && b.isBorrowed
      ensures HoldersOf(b) == {user.userId}
    {
      assert b in held[user.userId];
      HeldAreInCatalog(books, holder);
      BorrowedIffExactlyOneHolder(b);
      assert user.userId in HoldersOf(b);
    }

    /** A registered user's held list lies within the catalog. */
    lemma HeldBooksInCatalog(user: User)
      requires Valid() && user.userId in users && users[user.userId] == user
      ensures forall b | b in user.borrowedBooks :: b in books
    {
      HeldAreInCatalog(books, holder);
      forall b | b in user.borrowedBooks ensures b in books {
        assert b in held[user.userId];
      }
    }

    /** While the first catalog entry of an isbn is available, the user holds no book with that isbn. */
    lemma NothingHeldWithFreeIsbn(user: User, isbn: string)
      requires Valid() && user.userId in users && users[user.userId] == user
      requires FirstIndex(books, isbn).Some? && !books[FirstIndex(books, isbn).value].isBorrowed
      ensures forall c | c in user.borrowedBooks :: c.isbn != isbn
    {
      FreeIsbnIsHeldByNobody(books, users, held, holder, isbn, user.userId);
    }

    /** `addBook`: the book goes to the end of the catalog; nothing else changes. */
    method AddBook(book: Book)
      requires Valid()
      requires book in books || !book.isBorrowed
      modifies this
      ensures Valid()
      ensures books == old(books) + [book] && users == old(users)
      ensures held == old(held) && holder == old(holder)
    {
      AddKeepsConsistent(books, users, held, holder, book);
      HeldAreInCatalog(books, holder);
      books := books + [book];
    }

    /** `registerUser`: inserts the user under its id unless that id is already registered. */
    method RegisterUser(user: User) returns (outcome: Outcome)
      requires Valid()
      requires user.userId !in users ==> user.borrowedBooks == []
      modifies this
      ensures Valid()
      ensures books == old(books) && holder == old(holder)
      ensures user.userId in old(users) ==> outcome == DuplicateUser && users == old(users) && held == old(held)
      ensures user.userId !in old(users) ==>
                outcome == Registered && users == old(users)[user.userId := user] && held == old(held)[user.userId := []]
      ensures forall k | k in users :: users[k].userId == k
    {
      if user.userId !in users {
        RegisterKeepsConsistent(books, users, held, holder, user);
        users := users[user.userId := user];
        held := held[user.userId := []];
        outcome := Registered;
      } else {
        outcome := DuplicateUser;
      }
    }

    /** `authenticateUser`: the stored user when the id is registered and the password matches exactly, otherwise none. */
    function AuthenticateUser(userId: string, password: string): (r: Option<User>)
      reads this
      ensures r.Some? <==> userId in users && users[userId].password == password
      ensures r.Some? ==> r.value == users[userId]
    {
      if userId in users && users[userId].CheckPassword(password) then Some(users[userId]) else None
    }

    /** A user returned by authentication is registered under its own id, as borrowing and returning require. */
    lemma AuthenticatedUserIsRegistered(userId: string, password: string)
      requires Valid()
      ensures AuthenticateUser(userId, password).Some? ==>
                var user := AuthenticateUser(userId, password).value;
                user.userId == userId && user.userId in users && users[user.userId] == user
    {
    }

    /**
     * `borrowBook`: decided by the first catalog entry with the isbn.  If it
     * is available it becomes borrowed, held by the user, and goes to the
     * end of the user's held list; otherwise nothing changes.
     */
    method BorrowBook(user: User, isbn: string) returns (outcome: Outcome)
      requires Valid()
      requires user.userId in users && users[user.userId] == user
      modifies this`held, this`holder, books, user
      ensures Valid()
      ensures match FirstIndex(books, isbn)
        case None =>
          outcome == NotFound(isbn) && user.borrowedBooks == old(user.borrowedBooks)
          && holder == old(holder) && held == old(held)
        case Some(i) =>
          if old(books[i].isBorrowed) then
            outcome == AlreadyBorrowed(isbn) && user.borrowedBooks == old(user.borrowedBooks)
            && holder == old(holder) && held == old(held)
          else
            outcome == Borrowed(books[i])
      ensures outcome.Borrowed? ==>
                var b := outcome.book;
                && !old(b.isBorrowed) && b.isBorrowed
                && user.borrowedBooks == old(user.borrowedBooks) + [b]
                && (forall c | c in old(user.borrowedBooks) :: c.isbn != isbn)
                && holder == old(holder)[b := user.userId]
                && held == old(held)[user.userId := user.borrowedBooks]
      ensures forall b | b in books && !(outcome.Borrowed? && b == outcome.book) :: b.isBorrowed == old(b.isBorrowed)
    {
      var i := 0;
      while i < |books| && books[i].isbn != isbn
        invariant 0 <= i <= |books|
        invariant forall j | 0 <= j < i :: books[j].isbn != isbn
      {
        i := i + 1;
      }
      if i == |books| {
        return NotFound(isbn);
      }
      assert FirstIndex(books, isbn) == Some(i);
      if books[i].isBorrowed {
        return AlreadyBorrowed(isbn);
      }
      NothingHeldWithFreeIsbn(user, isbn);
      outcome := Lend(user, i);
    }

    /**
     * `returnBook`: searches only the user's held list.  On the first book
     * with the isbn it clears the flag and removes that book from the list;
     * otherwise nothing changes.
     */
    method ReturnBook(user: User, isbn: string) returns (outcome: Outcome)
      requires Valid()
      requires user.userId in users && users[user.userId] == user
      modifies this`held, this`holder, user, user.borrowedBooks
      ensures Valid()
      ensures match FirstIndex(old(user.borrowedBooks), isbn)
        case None =>
          outcome == NotHeld(isbn) && user.borrowedBooks == old(user.borrowedBooks)
          && holder == old(holder) && held == old(held)
        case Some(j) =>
          outcome == Returned(old(user.borrowedBooks)[j])
      ensures outcome.Returned? ==>
                var b := outcome.book;
                && old(b.isBorrowed) && !b.isBorrowed && b !in user.borrowedBooks
                && user.borrowedBooks == RemoveFirst(old(user.borrowedBooks), b)
                && holder == old(holder) - {b}
                && held == old(held)[user.userId := user.borrowedBooks]
      ensures forall b | b in books && !(outcome.Returned? && b == outcome.book) :: b.isBorrowed == old(b.isBorrowed)
    {
      var list := user.borrowedBooks;
      var i := 0;
      while i < |list| && list[i].isbn != isbn
        invariant 0 <= i <= |list|
        invariant forall j | 0 <= j < i :: list[j].isbn != isbn
      {
        i := i + 1;
      }
      if i == |list| {
        return NotHeld(isbn);
      }
      assert FirstIndex(list, isbn) == Some(i);
      HeldBooksAreBorrowed(user, list[i]);
      outcome := TakeBack(user, i);
    }

    /**
     * The success branch of `borrowBook`: `setBorrowed(true)` on catalog
     * entry i and `User.borrowBook` on the user, with the mirrors following.
     */
    method Lend(user: User, i: nat) returns (outcome: Outcome)
      requires Valid()
      requires user.userId in users && users[user.userId] == user
      requires i < |books| && FirstIndex(books, books[i].isbn) == Some(i) && !books[i].isBorrowed
      modifies this`held, this`holder, books[i], user
      ensures Valid()
      ensures outcome == Borrowed(books[i]) && books[i].isBorrowed
      ensures user.borrowedBooks == old(user.borrowedBooks) + [books[i]]
      ensures holder == old(holder)[books[i] := user.userId]
      ensures held == old(held)[user.userId := user.borrowedBooks]
    {
      var book := books[i];
      BorrowKeepsConsistent(books, users, held, holder, user.userId, book);
      book.SetBorrowed(true);
      user.BorrowBook(book);
      held := held[user.userId := held[user.userId] + [book]];
      holder := holder[book := user.userId];
      outcome := Borrowed(book);
      forall b | b in books ensures b.isBorrowed <==> b in holder {
        if b != book {
          assert b.isBorrowed == old(b.isBorrowed);
        }
      }
      forall k | k in users ensures users[k].borrowedBooks == held[k] {
        if k != user.userId {
          assert users[k] != user && users[k].borrowedBooks == old(users[k].borrowedBooks);
        }
      }
    }

    /**
     * The success branch of `returnBook`: `setBorrowed(false)` on held book i
     * and `User.returnBook` on the user, with the mirrors following.
     */
    method TakeBack(user: User, i: nat) returns (outcome: Outcome)
      requires Valid()
      requires user.userId in users && users[user.userId] == user
      requires i < |user.borrowedBooks|
      modifies this`held, this`holder, user, user.borrowedBooks[i]
      ensures var b := old(user.borrowedBooks)[i];
              && outcome == Returned(b) && !b.isBorrowed && b !in user.borrowedBooks
              && user.borrowedBooks == RemoveFirst(old(user.borrowedBooks), b)
              && holder == old(holder) - {b}
              && held == old(held)[user.userId := user.borrowedBooks]
      ensures Valid()
    {
      var book := user.borrowedBooks[i];
      ghost var rest := RemoveFirst(held[user.userId], book);
      ReturnKeepsConsistent(books, users, held, holder, user.userId, book, rest);
      book.SetBorrowed(false);
      user.ReturnBook(book);
      held := held[user.userId := rest];
      holder := holder - {book};
      outcome := Returned(book);
      forall b | b in books ensures b.isBorrowed <==> b in holder {
        if b != book {
          assert b.isBorrowed == old(b.isBorrowed);
        }
      }
      forall k | k in users ensures users[k].borrowedBooks == held[k] {
        if k != user.userId {
          assert users[k] != user && users[k].borrowedBooks == old(users[k].borrowedBooks);
        }
      }
    }

    /** `listAvailableBooks`: the catalog books that are not borrowed, in catalog order. */
    method ListAvailableBooks() returns (available: seq<Book>)
      ensures available == AvailableIn(books)
    {
      available := [];
      var i := 0;
      while i < |books|
        invariant 0 <= i <= |books|
        invariant available == AvailableIn(books[..i])
      {
        assert books[..i + 1][..i] == books[..i];
        if !books[i].isBorrowed {
          available := available + [books[i]];
        }
        i := i + 1;
      }
      assert books[..i] == books;
    }

    /** `listBorrowedBooks`: the user's held list in borrow order, and whether it is empty. */
    method ListBorrowedBooks(user: User) returns (list: seq<Book>, none: bool)
      ensures list == user.borrowedBooks
      ensures none <==> list == []
    {
      list := user.borrowedBooks;
      none := list == [];
    }

    /** `listBooksByCategory`: the catalog books of the category ignoring case, in catalog order; `found` iff any. */
    method ListBooksByCategory(category: string) returns (matches: seq<Book>, found: bool)
      ensures matches == InCategory(books, category)
      ensures found <==> matches != []
    {
      matches := [];
      found := false;
      var i := 0;
      while i < |books|
        invariant 0 <= i <= |books|
        invariant matches == InCategory(books[..i], category)
        invariant found <==> matches != []
      {
        assert books[..i + 1][..i] == books[..i];
        if EqualsIgnoreCase(books[i].category, category) {
          matches := matches + [books[i]];
          found := true;
        }
        i := i + 1;
      }
      assert books[..i] == books;
    }
  }

  /**
   * Returning, by its isbn, the book a user has just borrowed: it is the
   * last book of the held list and the only one with that isbn, so the
   * return takes back exactly that book and the list loses its last entry.
   */
  method ReturnLatest(library: Library, user: User, b: Book) returns (outcome: Outcome)
    requires library.Valid()
    requires user.userId in library.users && library.users[user.userId] == user
    requires user.borrowedBooks != [] && user.borrowedBooks[|user.borrowedBooks| - 1] == b
    requires forall j | 0 <= j < |user.borrowedBooks| - 1 :: user.borrowedBooks[j].isbn != b.isbn
    modifies library`held, library`holder, user, user.borrowedBooks
    ensures library.Valid()
    ensures outcome == Returned(b) && !b.isBorrowed
    ensures user.borrowedBooks == old(user.borrowedBooks[..|user.borrowedBooks| - 1])
    ensures library.holder == old(library.holder) - {b}
    ensures library.held == old(library.held)[user.userId := user.borrowedBooks]
    ensures forall c | c in library.books && c != b :: c.isBorrowed == old(c.isBorrowed)
  {
    ghost var before := user.borrowedBooks[..|user.borrowedBooks| - 1];
    assert user.borrowedBooks == before + [b];
    FirstIndexOfNewIsbn(before, b);
    RemoveFirstOfAppended(before, b);
    outcome := library.ReturnBook(user, b.isbn);
  }

  /**
   * A borrow followed by a return of the same isbn by the same user: when
   * the borrow succeeds, the return gives back that very book and restores
   * every flag, every holder and every held list.
   */
  method BorrowThenReturn(library: Library, user: User, isbn: string) returns (first: Outcome, second: Outcome)
    requires library.Valid()
    requires user.userId in library.users && library.users[user.userId] == user
    modifies library`held, library`holder, user, user.borrowedBooks, set b | b in library.books
    ensures library.Valid()
    ensures first.Borrowed? ==> second == Returned(first.book) && !first.book.isBorrowed
    ensures first.Borrowed? ==> user.borrowedBooks == old(user.borrowedBooks)
    ensures first.Borrowed? ==> library.holder == old(library.holder) && library.held == old(library.held)
    ensures first.Borrowed? ==> forall b | b in library.books :: b.isBorrowed == old(b.isBorrowed)
  {
    ghost var held, holder := library.held, library.holder;
    first := library.BorrowBook(user, isbn);
    label borrowed:
    if first.Borrowed? {
      second := ReturnLatest(library, user, first.book);
      RestoredEntry(held, user.userId, user.borrowedBooks + [first.book]);
      UnsetAfterSet(holder, first.book, user.userId);
      forall b | b in library.books ensures b.isBorrowed == old(b.isBorrowed) {
        if b != first.book {
          assert b.isBorrowed == old@borrowed(b.isBorrowed);
        }
      }
    } else {
      second := library.ReturnBook(user, isbn);
    }
  }

  /** Adds a freshly constructed, hence available, book to the catalog. */
  method AddNewBook(library: Library, title: string, author: string, isbn: string, category: string)
    requires library.Valid()
    modifies library
    ensures library.Valid() && library.users == old(library.users)
    ensures |library.books| == |old(library.books)| + 1 && library.books[..|old(library.books)|] == old(library.books)
    ensures var b := library.books[|library.books| - 1];
            fresh(b) && b.isbn == isbn && b.category == category && !b.isBorrowed
  {
    var book := new Book(title, author, isbn, category);
    library.AddBook(book);
    assert library.books[..|old(library.books)|] == old(library.books);
  }

  /** The sample catalog the program starts from: five books, all available, and nobody registered yet. */
  method SampleCatalog() returns (library: Library)
    ensures fresh(library) && library.Valid() && library.users == map[]
    ensures forall i | 0 <= i < |library.books| :: fresh(library.books[i])
    ensures |library.books| == 5 && forall b | b in library.books :: !b.isBorrowed
    ensures library.books[0].isbn == "978-0618260274" && library.books[1].isbn == "978-0141439518"
    ensures library.books[2].isbn == "978-0345391803" && library.books[3].isbn == "978-0061120084"
    ensures library.books[4].isbn == "978-0553803717"
  {
    library := new Library();
    AddNewBook(library, "The Lord of the Rings", "J.R.R. Tolkien", "978-0618260274", "Fantasy");
    AddNewBook(library, "Pride and Prejudice", "Jane Austen", "978-0141439518", "Romance");
    AddNewBook(library, "The Hitchhiker's Guide to the Galaxy", "Douglas Adams", "978-0345391803", "Science Fiction");
    AddNewBook(library, "To Kill a Mockingbird", "Harper Lee", "978-0061120084", "Fiction");
    AddNewBook(library, "Foundation", "Isaac Asimov", "978-0553803717", "Science Fiction");
  }

  /** The sample data the program starts from: the sample catalog and two registered users who hold nothing. */
  method SampleLibrary() returns (library: Library, alice: User, bob: User)
    ensures fresh(library) && library.Valid()
    ensures forall i | 0 <= i < |library.books| :: fresh(library.books[i])
    ensures fresh(alice) && fresh(bob) && alice.userId == "user123" && bob.userId == "bob456"
    ensures |library.books| == 5 && forall b | b in library.books :: !b.isBorrowed
    ensures library.users == map["user123" := alice, "bob456" := bob]
    ensures alice.password == "pass123" && bob.password == "securePass"
    ensures alice.borrowedBooks == [] && bob.borrowedBooks == []
    ensures library.books[0].isbn == "978-0618260274" && library.books[1].isbn == "978-0141439518"
    ensures library.books[2].isbn == "978-0345391803" && library.books[3].isbn == "978-0061120084"
    ensures library.books[4].isbn == "978-0553803717"
  {
    library := SampleCatalog();
    alice := new User("user123", "pass123", "Alice Smith");
    bob := new User("bob456", "securePass", "Bob Johnson");
    var registered := library.RegisterUser(alice);
    registered := library.RegisterUser(bob);
  }

  /**
   * The opening session on the sample data: Alice borrows the first book,
   * then Bob finds it already borrowed and still holds nothing.
   */
  method SampleSession() returns (first: Outcome, second: Outcome, bobHolds: seq<Book>)
    ensures first.Borrowed? && first.book.isbn == "978-0618260274" && first.book.isBorrowed
    ensures second == AlreadyBorrowed("978-0618260274") && bobHolds == []
  {
    var library, alice, bob := SampleLibrary();
    first := library.BorrowBook(alice, "978-0618260274");
    second := library.BorrowBook(bob, "978-0618260274");
    bobHolds := bob.borrowedBooks;
  }
}
