# Library catalog: a Dafny model

This project models the in-memory catalog of a console library management
system. A `Book` has a fixed id, title and author and an `issued` flag. A
`Library` holds an ordered list of books and changes it in place through four
operations:

- `addBook` appends a book. It does not check whether the id is already used.
- `issueBook` scans in list order for the first book with the id. It sets that
  book's flag, or reports that it is already issued. Later books are never
  looked at.
- `returnBook` mirrors `issueBook`: it clears the flag, or reports "not issued".
- `removeBook` deletes every book with the id, through `removeIf`. It reports
  whether anything was removed.

`displayBooks` is the one query over the list. Each change that takes effect
ends in `saveBooks`, which rewrites the whole catalog to disk.

The model has two modules:

- `Catalog` (catalog.dfy) is the value-level meaning. `BookData` is what a book
  holds at a moment. `Outcome` is the status an operation reports (`Success`,
  `NotFound`, `AlreadyIssued`, `NotIssued`). `Issue`, `Return`, `Remove` and
  `Add` are functions from a catalog to an outcome and a new catalog. Lemmas
  relate the operations to each other.
- `LibraryManagementSystem` (library.dfy) has the classes.
  - `Book`: `id`, `title` and `author` are `const`, so nothing can change them
    after construction. `issued` is a `var` that only `SetIssued` assigns. The
    Java getters are these fields themselves.
  - `Library`: `books` is a `seq<Book>` of object references. The ghost field
    `saveLog` records the catalog that each call of `saveBooks` wrote, so
    `|saveLog|` counts the saves.
  - Each method's postcondition gives the outcome and the new catalog in terms
    of the `Catalog` functions applied to `old(Contents())`. It also says exactly
    when a save happens and what that save wrote.

Java lets the same `Book` object be added twice. Issuing it then changes every
position that holds it. The model keeps this behaviour. `IssueBook` and
`ReturnBook` may modify only `saveLog` and the one object found first. When no
object occurs twice (`Distinct()`), the new catalog equals the value-level
result exactly. `AddBook` keeps `Distinct()` when the added book is not already
in the list, and `RemoveBook` always keeps it.

`removeIf` deletes every book with the id, not only the first; `Without` drops
all of them, and `RemoveBook` keeps the remaining objects in their order.

## Model

| member | source | states |
|---|---|---|
| LibraryManagementSystem.Book.constructor | java/LibraryManagementSystem.java:21-26 | a new book has the given id, title and author and is not issued |
| LibraryManagementSystem.Book.SetIssued | java/LibraryManagementSystem.java:44-46 | the flag takes the given value; only this book changes |
| LibraryManagementSystem.Library.constructor | java/LibraryManagementSystem.java:60-62 | the catalog starts as the list loadBooks returned, with no saves yet |
| LibraryManagementSystem.Library.Save | java/LibraryManagementSystem.java:130-136 | a save writes the whole current catalog; only the save log changes |
| LibraryManagementSystem.Library.AddBook | java/LibraryManagementSystem.java:65-69 | the list becomes the old list followed by the book, earlier books unchanged; exactly one save, of the new catalog; no uniqueness check |
| LibraryManagementSystem.Library.Find | java/LibraryManagementSystem.java:73-74 | the for-loop finds the first position whose book has the id, or none when no book has it |
| LibraryManagementSystem.Library.SetFlag | java/LibraryManagementSystem.java:76 | setIssued through the list, as here and at line 94: the book at position i gets the flag v; with no duplicated object, only position i of the catalog changes |
| LibraryManagementSystem.Library.IssueBook | java/LibraryManagementSystem.java:72-87 | outcome as Issue; on Success the first match is now issued and is the only object changed; otherwise nothing changes; one save exactly on Success |
| LibraryManagementSystem.Library.ReturnBook | java/LibraryManagementSystem.java:90-105 | outcome as Return; on Success the first match's flag is cleared and it is the only object changed; otherwise nothing changes; one save exactly on Success |
| LibraryManagementSystem.Library.Keep | java/LibraryManagementSystem.java:109 | the scan of removeIf returns Kept(books, id): the same objects whose id differs, in list order; their values are Without(catalog, id) |
| LibraryManagementSystem.Library.RemoveBook | java/LibraryManagementSystem.java:108-116 | the list becomes Kept(old list, id), the old objects filtered in order, and stays free of duplicates; the catalog is Without(old catalog, id); Success and one save exactly when some book had the id, otherwise NotFound, the same list and no save |
| LibraryManagementSystem.Kept | java/LibraryManagementSystem.java:109 | the objects removeIf leaves: every one was in the list and has another id; the list does not grow, and is the same list when nothing was dropped |
| LibraryManagementSystem.KeptMembers | java/LibraryManagementSystem.java:109 | an object is kept exactly when it was in the list and its id differs |
| LibraryManagementSystem.KeptNone | java/LibraryManagementSystem.java:109 | when no book has the id, removeIf keeps the whole list |
| LibraryManagementSystem.KeptSnapshot | java/LibraryManagementSystem.java:109 | the values of the kept objects are exactly Without applied to the values of the list |
| LibraryManagementSystem.KeptUnique | java/LibraryManagementSystem.java:109 | filtering a list in which no object occurs twice gives a list in which no object occurs twice |
| LibraryManagementSystem.Library.DisplayBooks | java/LibraryManagementSystem.java:119-127 | reports empty exactly when there are no books, and lists every book in list order |
| Catalog.FindFirst | java/LibraryManagementSystem.java:73-85 | the result is the first index with the id, and is None exactly when no record has it |
| Catalog.Add | java/LibraryManagementSystem.java:65-67 | one record longer, the old list as prefix, the new record last |
| Catalog.Issue | java/LibraryManagementSystem.java:72-87 | NotFound exactly when no record has the id, with no change; at the first match: AlreadyIssued and no change if it is issued, else Success with only that record set to issued |
| Catalog.Return | java/LibraryManagementSystem.java:90-105 | NotFound exactly when no record has the id, with no change; at the first match: NotIssued and no change if it is not issued, else Success with only that record cleared |
| Catalog.Without | java/LibraryManagementSystem.java:109 | no record left has the id; the list is unchanged when none had it |
| Catalog.WithoutMembers | java/LibraryManagementSystem.java:109 | a record remains exactly when it was in the list and its id differs |
| Catalog.WithoutLength | java/LibraryManagementSystem.java:109-110 | the list gets shorter exactly when some record had the id, the condition removeIf reports |
| Catalog.WithoutDistributes | java/LibraryManagementSystem.java:109 | removal distributes over concatenation, so the survivors keep their relative order |
| Catalog.Remove | java/LibraryManagementSystem.java:108-116 | Success exactly when some record had the id, NotFound otherwise; the new catalog is Without |
| Catalog.AddAllAppends | java/LibraryManagementSystem.java:65-67 | N adds in a row leave the old list followed by the N books in the order added |
| Catalog.IssueThenReturnRestores | java/LibraryManagementSystem.java:72-105 | issuing an available first match and then returning it gives Success twice and restores the original list |
| Catalog.ReturnThenIssueRestores | java/LibraryManagementSystem.java:72-105 | returning an issued first match and then issuing it gives Success twice and restores the original list |
| Catalog.IssueTwice | java/LibraryManagementSystem.java:72-87 | after a successful issue, issuing the same id again reports AlreadyIssued and changes nothing |
| Catalog.ReturnTwice | java/LibraryManagementSystem.java:90-105 | after a successful return, returning the same id again reports NotIssued and changes nothing |
| Catalog.IssueStopsAtFirstMatch | java/LibraryManagementSystem.java:73-83 | an issued first match gives AlreadyIssued even when a later book with the same id is available |
| Catalog.RemoveThenIssueNotFound | java/LibraryManagementSystem.java:72-116 | after removing an id, issuing or returning it reports NotFound and changes nothing |
| Catalog.RemoveIdempotent | java/LibraryManagementSystem.java:108-116 | removing the same id twice: the second removal reports NotFound and changes nothing |
| Catalog.IssueReturnKeepOtherIds | java/LibraryManagementSystem.java:72-105 | issue and return leave records with other ids alone: removing the id afterwards gives the same list, and every other id is found at the same place |
| Catalog.ExampleSession | java/LibraryManagementSystem.java:65-116 | add Dune (1) and 1984 (2); issue 1 gives Success, issue 1 again AlreadyIssued, return 2 NotIssued, remove 2 Success; only Dune is left, issued |

## Left out

- `loadBooks` (java/LibraryManagementSystem.java:140-149) reads a file with Java
  object deserialization, and falls back to an empty list when the file is
  missing or unreadable. This is file I/O. The `Library` constructor takes the
  list loadBooks would return as its parameter `loaded`.
- `saveBooks` (java/LibraryManagementSystem.java:130-136) serializes the list.
  The byte format is not modelled. Write failures are caught and only printed;
  the model records every save as written. A save is only the snapshot that
  `Save` appends to the ghost `saveLog`.
- `main` (java/LibraryManagementSystem.java:153-210), the console menu loop, is
  not part of this model.
- Every `System.out.println` message and `Book.toString`'s padded format are
  left out. Operations return an `Outcome`; `DisplayBooks` returns the empty
  flag and the list of records.
- The getters `getId`, `getTitle`, `getAuthor` and `isIssued` are not separate
  members. Callers read the fields `id`, `title`, `author` and `issued`.
- LibraryManagementSystem.Library.RemoveBook: `removeIf` edits the Java list
  object in place. The model builds the list of kept books and assigns it to
  `books`. No other object holds the list, so no caller can tell the difference.
- Java `int` ids are 32-bit. The model uses unbounded `int`. Ids are only
  compared for equality, never computed, so overflow cannot arise.
