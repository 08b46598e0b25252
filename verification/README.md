# E-library lending core and word counting, in Dafny

This project models two parts of a small Java program.

**The e-library's lending core** (`ELibrarySystem.java`) is module `ELibrary` in `elibrary.dfy`.
- A `Book` is an object with fixed bibliographic data and a mutable `isBorrowed` flag.
- A `User` is an object with credentials and a mutable held list `borrowedBooks`. It shares `Book` references with the catalog.
- The `Library` owns the catalog (`books`, an ordered sequence) and the registry (`users`, a map from user id to user).

Each library operation returns an `Outcome` value in place of the message it prints:
- `Registered` and `DuplicateUser` for registration;
- `Borrowed`, `AlreadyBorrowed` and `NotFound` for borrowing;
- `Returned` and `NotHeld` for returning.

Authentication returns `Option<User>`.

The library carries two ghost mirrors:
- `held` records each registered user's held list;
- `holder` records which user holds each borrowed book.

`Library.Valid()` states the lending invariant over these mirrors and ties them to the objects. Under it, a catalog book is borrowed exactly when exactly one registered user holds it. In addition:
- every held book is the first catalog entry with its ISBN;
- no held list repeats a book;
- every registry key is the id of the user stored under it.

Every mutating operation preserves `Valid()`. Borrowing and returning are loops with an early exit. Each is proved against `FirstIndex`, the position of the first book with a given ISBN. The success branch of each loop is the separate method `Lend` or `TakeBack`.

**Word counting** (`countWords` in `WordCounter.java`) is module `WordCounter` in `word_counter.dfy`. It is pure:
- `Trim` models `String.trim()`, which strips characters up to U+0020 from both ends.
- `Split` models `split("\\s+")`. It returns the whole input when there is no separator, and otherwise drops trailing empty pieces.
- `\s` is the six characters space, `\t`, `\n`, U+000B, `\f` and `\r`.

The count is proved equal to an independent reference: `Words`, the number of maximal runs of non-`\s` characters.

`wrappers.dfy` holds the `Option` datatype, which stands for Java's `null`.

## Model

| member | source | states |
|---|---|---|
| ELibrary.Book.constructor | ELibrarySystem.java:15-21 | a new book has the given title, author, ISBN and category and is not borrowed |
| ELibrary.Book.SetBorrowed | ELibrarySystem.java:44-46 | the flag takes the given value |
| ELibrary.User.constructor | ELibrarySystem.java:62-67 | a new user has the given credentials and holds no books |
| ELibrary.User.CheckPassword | ELibrarySystem.java:79-81 | true exactly when the candidate equals the stored password |
| ELibrary.User.BorrowBook | ELibrarySystem.java:87-89 | the book is appended at the end of the held list |
| ELibrary.User.ReturnBook | ELibrarySystem.java:91-93 | the held list loses the first occurrence of the book, by reference |
| ELibrary.RemoveFirst | ELibrarySystem.java:92 | `List.remove(Object)`: the list is unchanged when the element is absent, and otherwise one shorter |
| ELibrary.RemoveFirstCounts | ELibrarySystem.java:92 | removal takes exactly one copy of the element out of the list's multiset, and changes nothing else |
| ELibrary.RemoveFirstOfAppended | ELibrarySystem.java:87-93 | removing a book just appended to a list that did not hold it gives back the original list |
| ELibrary.RemoveFirstAt | ELibrarySystem.java:91-93 | `List.remove(Object)` cuts the list at the first occurrence of the book: the elements before and after it stay, in their order |
| ELibrary.FirstIndex | ELibrarySystem.java:139-148 | the position of the first book with the ISBN (every earlier book has another ISBN), or none when no book has it |
| ELibrary.FirstIndexOfAppended | ELibrarySystem.java:112-113 | appending a book does not change which entry is first for an ISBN already in the catalog |
| ELibrary.FirstIndexOfNewIsbn | ELibrarySystem.java:155-156 | a book appended to a list with no other book of its ISBN is the first match for that ISBN |
| ELibrary.ToLowerAscii | ELibrarySystem.java:195 | upper-case ASCII letters map to lower case, and every other character is unchanged |
| ELibrary.LowerAscii | ELibrarySystem.java:195 | lower-cases a string character by character and keeps its length |
| ELibrary.EqualsIgnoreCase | ELibrarySystem.java:195 | `equalsIgnoreCase` with ASCII folding: same length and equal characters after lower-casing; `EqualsIgnoreCaseIsLowerEquality` shows it is equality of the lower-cased strings |
| ELibrary.EqualsIgnoreCaseIsLowerEquality | ELibrarySystem.java:195 | two strings are equal ignoring case exactly when their lower-cased forms are equal |
| ELibrary.AvailableIn | ELibrarySystem.java:169-173 | the filter behind the available listing: `AvailableInMembers` shows it holds exactly the not-borrowed books of the catalog, and `AvailableInConcat` that it keeps their order |
| ELibrary.AvailableInMembers | ELibrarySystem.java:167-175 | a book is listed as available exactly when it is in the catalog and not borrowed |
| ELibrary.AvailableInConcat | ELibrarySystem.java:169-173 | the available listing keeps catalog order: that of a concatenation is the concatenation of the listings |
| ELibrary.InCategoryMembers | ELibrarySystem.java:191-203 | a book is listed for a category exactly when it is in the catalog and its category matches ignoring case |
| ELibrary.InCategory | ELibrarySystem.java:194-199 | the filter behind the category listing: `InCategoryMembers` shows it holds exactly the catalog books whose category matches ignoring case, and `InCategoryConcat` that it keeps their order |
| ELibrary.InCategoryConcat | ELibrarySystem.java:194-199 | the category listing keeps catalog order |
| ELibrary.HeldAreInCatalog | ELibrarySystem.java:139-142 | only catalog books can be held |
| ELibrary.ExactlyOneHolder | ELibrarySystem.java:141-142 | under the invariant, a book has a holder exactly when one registered user's list holds it, and none otherwise |
| ELibrary.AddKeepsConsistent | ELibrarySystem.java:112-113 | appending a book to the catalog preserves the lending invariant |
| ELibrary.RegisterKeepsConsistent | ELibrarySystem.java:118-120 | registering a new id with an empty held list preserves the lending invariant |
| ELibrary.AppendWithoutDuplicates | ELibrarySystem.java:88 | appending a book not yet held keeps the held list free of repeats |
| ELibrary.BorrowKeepsConsistent | ELibrarySystem.java:139-144 | lending a free first-match book to a registered user preserves the lending invariant |
| ELibrary.RemoveFirstWithoutDuplicates | ELibrarySystem.java:92 | removing a held book from a list without repeats leaves no copy of it and no repeats |
| ELibrary.ReturnKeepsConsistent | ELibrarySystem.java:155-160 | taking a held book back from its holder preserves the lending invariant, and the book has no holder afterwards |
| ELibrary.FreeIsbnIsHeldByNobody | ELibrarySystem.java:139-145 | when the first catalog entry with an ISBN is free, no user holds any book with that ISBN |
| ELibrary.Library.constructor | ELibrarySystem.java:106-109 | a new library has an empty catalog and an empty registry, and satisfies the invariant |
| ELibrary.Library.BorrowedIffExactlyOneHolder | ELibrarySystem.java:141-158 | a catalog book's flag is set exactly when exactly one registered user holds it, and clear exactly when nobody does |
| ELibrary.Library.HeldBooksAreBorrowed | ELibrarySystem.java:155-158 | a book in a registered user's held list is a borrowed catalog book whose only holder is that user |
| ELibrary.Library.HeldBooksInCatalog | ELibrarySystem.java:139-142 | a registered user holds only catalog books |
| ELibrary.Library.NothingHeldWithFreeIsbn | ELibrarySystem.java:139-145 | when the first catalog entry with an ISBN is available, the user holds no book with that ISBN |
| ELibrary.Library.AddBook | ELibrarySystem.java:112-115 | the book is appended at the end of the catalog; the registry and every holding are unchanged, and the invariant holds |
| ELibrary.Library.RegisterUser | ELibrarySystem.java:118-125 | a new id is inserted with its user and reports `Registered`; a known id reports `DuplicateUser` and leaves the registry unchanged; every key maps to the user with that id |
| ELibrary.Library.AuthenticateUser | ELibrarySystem.java:128-135 | the stored user exactly when the id is registered and the password matches; an unknown id and a wrong password give the same `None` |
| ELibrary.Library.AuthenticatedUserIsRegistered | ELibrarySystem.java:128-135 | a user returned by authentication is registered under its own id, which is what borrowing and returning require |
| ELibrary.Library.BorrowBook | ELibrarySystem.java:138-151 | only the first entry with the ISBN decides. No entry gives `NotFound` and a borrowed entry gives `AlreadyBorrowed`, both with no change. A free entry becomes borrowed, goes to the end of the user's list and gets the user as holder. No other flag changes, and the invariant holds. |
| ELibrary.Library.Lend | ELibrarySystem.java:140-144 | the first-match free book becomes borrowed, is appended to the user's list and recorded as held by the user; the invariant holds |
| ELibrary.Library.ReturnBook | ELibrarySystem.java:154-164 | only the user's held list is searched. No match gives `NotHeld` and changes nothing. The first match is cleared and removed from the list, and loses its holder. No other flag changes, and the invariant holds. |
| ELibrary.Library.TakeBack | ELibrarySystem.java:156-160 | the held book is cleared, its first occurrence is removed from the user's list and it loses its holder; the invariant holds |
| ELibrary.Library.ListAvailableBooks | ELibrarySystem.java:167-175 | yields the not-borrowed catalog books in catalog order, without changing state |
| ELibrary.Library.ListBorrowedBooks | ELibrarySystem.java:178-188 | yields the user's held list in borrow order, and reports "none" exactly when it is empty |
| ELibrary.Library.ListBooksByCategory | ELibrarySystem.java:191-204 | yields the catalog books whose category matches ignoring case, in catalog order, and reports "found" exactly when there is one |
| ELibrary.ReturnLatest | ELibrarySystem.java:286-289 | returning the ISBN of the book just borrowed takes back that very book and drops the last entry of the held list |
| ELibrary.BorrowThenReturn | ELibrarySystem.java:281-289 | after a successful borrow, returning the same ISBN reports `Returned` of that book. It restores the user's list, every flag and every holding, and the invariant holds. |
| ELibrary.AddNewBook | ELibrarySystem.java:213 | adding a freshly constructed book appends one available book and keeps the earlier entries and the registry |
| ELibrary.SampleCatalog | ELibrarySystem.java:212-217 | five freshly created sample books, with their ISBNs in order, all available, with nobody registered |
| ELibrary.SampleLibrary | ELibrarySystem.java:212-223 | the sample catalog (five freshly created, available books with their ISBNs in order) plus the two freshly created sample users, with ids `user123` and `bob456`, registered under those ids, with their passwords, holding nothing |
| ELibrary.SampleSession | ELibrarySystem.java:138-148 | on the sample data, Alice borrowing the first ISBN gets `Borrowed` of that book, which is then borrowed; Bob borrowing the same ISBN then gets `AlreadyBorrowed` and still holds nothing |
| WordCounter.TrimStart | WordCounter.java:63 | removes the longest prefix of characters up to U+0020; the rest is a suffix of the input starting with a kept character |
| WordCounter.TrimEnd | WordCounter.java:63 | removes the longest such suffix; the rest is a prefix of the input ending with a kept character |
| WordCounter.Trim | WordCounter.java:60 | the result has no strippable character at either end, and is empty exactly when every character is strippable |
| WordCounter.TrimStartOfPadded | WordCounter.java:63 | leading strippable characters do not affect the start-trimmed text |
| WordCounter.TrimEndOfPadded | WordCounter.java:63 | trailing strippable characters do not affect the end-trimmed text |
| WordCounter.TrimStartOfSuffixPadded | WordCounter.java:63 | trimming the start commutes with appending strippable characters unless everything is stripped |
| WordCounter.TrimIgnoresTrailing | WordCounter.java:63 | `trim()` ignores trailing strippable characters |
| WordCounter.TrimIgnoresPadding | WordCounter.java:63 | `trim()` ignores strippable characters on both sides |
| WordCounter.TrimOfTrimmed | WordCounter.java:63 | `trim()` is the identity on text that is already trimmed |
| WordCounter.WordEnd | WordCounter.java:63 | the end of the run of non-`\s` characters from a position: everything before it is non-`\s` and it is `\s` or the end |
| WordCounter.SpaceEnd | WordCounter.java:63 | the end of the run of `\s` characters from a position: everything before it is `\s` and it is non-`\s` or the end |
| WordCounter.PiecesFrom | WordCounter.java:63 | the pieces of the text between maximal `\s` runs, at least one; `PiecesAreWords` shows there is one nonempty, `\s`-free piece per word when the text starts and ends with a word character |
| WordCounter.Split | WordCounter.java:63 | `split("\\s+")`: the whole text when it has no separator, otherwise the pieces without trailing empty ones; `SplitOfTrimmed` shows that on trimmed text there is one nonempty, `\s`-free piece per word |
| WordCounter.DropTrailingEmpty | WordCounter.java:63 | removes exactly the trailing empty pieces: a prefix of the input whose last piece, if any, is nonempty |
| WordCounter.RunsAfter | WordCounter.java:63-64 | the reference count of maximal runs of non-`\s` characters, independent of `split`; `RunsAfterConcat`, `RunsOverWord`, `RunsOverGap` and `RunsOfSpaces` give its behaviour on parts of a text |
| WordCounter.Words | WordCounter.java:63-64 | the number of words of a whole text; `CountWordsIsWords` shows the count equals it on the trimmed text |
| WordCounter.RunsAtMostLength | WordCounter.java:64 | a text holds no more words than characters |
| WordCounter.RunsAfterConcat | WordCounter.java:63-64 | the reference count of a concatenation is the count of the first part plus that of the second, continuing from the first part's last character |
| WordCounter.RunsOfSpaces | WordCounter.java:63 | a stretch of `\s` characters contains no word |
| WordCounter.RunsOverWord | WordCounter.java:63-64 | a run of non-`\s` characters contributes exactly one word when it starts after a boundary |
| WordCounter.RunsOverGap | WordCounter.java:63 | a run of `\s` characters contributes no word and makes the next character start one |
| WordCounter.PiecesAreWords | WordCounter.java:63-64 | splitting a stretch that starts and ends with a non-`\s` character yields one nonempty, `\s`-free piece per word |
| WordCounter.SplitOfTrimmed | WordCounter.java:63-64 | `split("\\s+")` of nonempty trimmed text yields one piece per word, at least one, each nonempty and free of `\s` |
| WordCounter.CountWords | WordCounter.java:59-65 | `countWords`: `CountWordsZero` gives 0 exactly for null or blank text, `CountWordsIsWords` gives `Words(Trim(text))` otherwise, and `CountWordsAtMostLength` bounds it by the length of the text |
| WordCounter.CountWordsAtMostLength | WordCounter.java:64 | the count never exceeds the length of the text, so the Java `int` result cannot wrap |
| WordCounter.CountWordsZero | WordCounter.java:60-61 | the count is 0 exactly when the text is null or blank after `trim()` |
| WordCounter.CountWordsIsWords | WordCounter.java:63-64 | the count equals the number of maximal runs of non-`\s` characters in the trimmed text, and is at least 1 for non-blank text |
| WordCounter.CountWordsIgnoresPadding | WordCounter.java:63 | leading and trailing whitespace do not change the count |
| WordCounter.CountWordsCollapsesSeparators | WordCounter.java:63 | any run of one or more `\s` characters between words counts like a single space |

## Left out

- The `main` menu loop, `Scanner` input, prompts and the handling of the current user are not modelled. Only the seed data (`SampleCatalog`, `SampleLibrary`) and one opening borrow session (`SampleSession`) are modelled.
- Printed messages and the `toString` renderings become `Outcome` values, and the listings become returned sequences.
- `getTitle`, `getAuthor`, `getIsbn`, `getCategory`, `isBorrowed`, `getUserId`, `getName` and `getBorrowedBooks` are plain field reads of the Dafny objects.
- `HashMap` internals are not modelled. The registry is a Dafny `map`.
- ELibrary.EqualsIgnoreCase: case is folded for ASCII letters only. Java's `equalsIgnoreCase` also folds other Unicode letters.
- ELibrary.Library.AddBook: requires a book that is not borrowed, unless it is already in the catalog. The program only adds freshly constructed books. Adding someone else's borrowed book would break the lending invariant, which the Java code does not guard against.
- ELibrary.Library.RegisterUser: requires a user registered under a new id to hold nothing. The program only registers freshly constructed users.
- ELibrary.Library.BorrowBook: requires the user to be the one registered under its id. In the program the user always comes from `authenticateUser`, as `AuthenticatedUserIsRegistered` shows. An unregistered user would break the invariant.
- ELibrary.Library.ReturnBook: requires the user to be the one registered under its id, for the same reason.
- `getBorrowedBooks` returns the live list, so callers could change it directly. The model lets only `User.BorrowBook` and `User.ReturnBook` change it.
- Null `User` or `Book` arguments and null strings are not modelled for the library. Only the `countWords` text may be null, as `Option`.
- The Swing frame, text area, button, label, listener and `invokeLater` in `WordCounter.java` are not modelled.
- The Java regex engine is not modelled. `\s` is the six characters listed above, and `trim()` strips every character up to U+0020. Control characters such as U+0001 therefore belong to words.
- WordCounter.CountWords: returns a `nat`, not a Java `int`. `CountWordsAtMostLength` bounds it by the length of the text, so no wrap-around is lost.
- A failed return reports `NotHeld` with the ISBN alone. The code's message also names the user, and that text is left out with the other messages.
