# Book accounting service: the catalogue's service layer in Dafny

This project models the service layer of a small library-catalogue backend.
The layer sits over two tables, `authors` and `books`, and has three parts:

* **Book management** (`BookService`): add a book, list all books, get a book
  by id, update a book, delete a book, and project a book to its response.
* **Author management** (`AuthorService`): add an author, list authors page by
  page, get an author by id.
* **Error translation** (`RestExceptionHandler`): map each failure kind to an
  HTTP status, and collect field-binding errors into a response map.

The two JPA repositories become one class, `Store.Catalogue`. It holds both
tables as maps from id to record, plus the next value of each table's
identity column. Ids start at 1 and are never reused.

The service methods take the catalogue and change it in place. Each one
states its whole new state and the outcome:
* the error kind with the id it concerns, or `Success`;
* which table changed, and how;
* that the other table and both counters did not change.

Read-only operations are functions or methods that do not modify anything.
Exceptions become `Outcome`/`Result` values over `Exceptions.ServiceError`.
A book holds the author record it was bound to. `Catalogue.Valid()` states
that this record is the stored author with the same id. Authors are never
updated or deleted, so the record cannot go stale.

`findAll` lists a table in ascending id order. The query sets no order of its
own, so this model fixes one: identity order.

Where the code differs from the service's documented intent, the model
follows the code. The one exception is the birth-year defect in
the Findings section: there `AuthorService.AddAuthorAsWritten` models the code as
written, and `AuthorService.AddAuthor` is the corrected operation that the
rest of the model and the scenario use. Otherwise:
* `addAuthor` checks no duplicate name.
* `getAuthorById` returns an empty optional rather than failing with not-found.
  `AuthorServiceTest.java` expects both checks, but `AuthorService.java` does
  neither.
* `handleValidationErrors` sets no status: it has no `@ResponseStatus`, so
  the model assigns no bad-request status.
* No field constraint exists on either request type, so no validation step
  is modelled.

`Scenario.CatalogueSession` is a client proved from the contracts alone. It
adds an author and a book, reads the book back, gets a title conflict on a
second add, deletes the book, and then gets not-found.

## Model

| member | source | states |
|---|---|---|
| `Exceptions.Handle` | src/main/java/com/kode/bookaccountingservice/exception/RestExceptionHandler.java:22-40 | AuthorAlreadyExists and BookAlreadyExists answer 409 CONFLICT. AuthorNotFound and BookNotFound answer 404 NOT_FOUND. The body is the exception itself, which fixes its message. No other failure has a handler. |
| `Exceptions.StatusSeparatesKinds` | src/main/java/com/kode/bookaccountingservice/exception/RestExceptionHandler.java:22-40 | A conflict kind and a not-found kind are both handled, and never with the same status. |
| `Exceptions.PutAll` | src/main/java/com/kode/bookaccountingservice/exception/RestExceptionHandler.java:44-47 | The map the `put` loop leaves behind. Each entry's message is the message of some error for that field. `PutAllKeys` and `PutAllLastWins` pin down which entries and which message. |
| `Exceptions.PutAllKeys` | src/main/java/com/kode/bookaccountingservice/exception/RestExceptionHandler.java:44-47 | After the `put` loop, the map's keys are exactly the fields that have at least one error. |
| `Exceptions.PutAllLastWins` | src/main/java/com/kode/bookaccountingservice/exception/RestExceptionHandler.java:44-47 | Each field maps to the message of the last error for that field, because later `put`s overwrite earlier ones. |
| `Exceptions.HandleValidationErrors` | src/main/java/com/kode/bookaccountingservice/exception/RestExceptionHandler.java:42-54 | The response is the linked map `timestamp`, then `errors`, in that order. Its errors map has exactly the erroneous fields as keys. Each field's message is the last one given for it. No errors give an empty map. |
| `Store.Catalogue.constructor` | src/main/java/com/kode/bookaccountingservice/entity/Book.java:8-11 | Both tables start empty and satisfy the invariant. Both identity columns start at 1. |
| `Store.KeysBelow` | src/main/java/com/kode/bookaccountingservice/repository/BookRepository.java:6 | Lists the table ids below a bound, strictly ascending. It includes every stored id in range and nothing else. |
| `Store.Catalogue.AllAuthors` | src/main/java/com/kode/bookaccountingservice/repository/AuthorRepository.java:9 | `findAll` on authors lists stored authors only, each under its own id, in strictly ascending id order. |
| `Store.Catalogue.AllBooks` | src/main/java/com/kode/bookaccountingservice/repository/BookRepository.java:6 | `findAll` on books lists stored books only, each under its own id, in strictly ascending id order. |
| `Store.Catalogue.AuthorsListingComplete` | src/main/java/com/kode/bookaccountingservice/repository/AuthorRepository.java:9 | The author listing is as long as the table and contains every stored id, so each author appears exactly once. |
| `Store.Catalogue.BooksListingComplete` | src/main/java/com/kode/bookaccountingservice/repository/BookRepository.java:6 | The book listing is as long as the table and contains every stored id, so each book appears exactly once. |
| `Paging.Window` | src/main/java/com/kode/bookaccountingservice/service/AuthorService.java:51-55 | A page holds at most `size` consecutive items from its offset. It is empty past the end and shorter only at the end. |
| `Paging.PageOf` | src/main/java/com/kode/bookaccountingservice/service/AuthorService.java:52-54 | `findAll(PageRequest.of(page, size))`: at most `size` items, and item `i` of the page is item `page*size + i` of the listing. |
| `Paging.ItemOnItsPage` | src/main/java/com/kode/bookaccountingservice/service/AuthorService.java:51-55 | Item `k` of the listing appears on page `k / size` at position `k % size`, so paging loses nothing. |
| `AuthorService.BuildAuthorAsWritten` | src/main/java/com/kode/bookaccountingservice/service/AuthorService.java:37-39 | The code as written: building the entity fails with a null-pointer failure exactly when the birth year is absent. Otherwise it gives the author with the request's name and birth year. |
| `AuthorService.AbsentBirthYearRejected` | src/main/java/com/kode/bookaccountingservice/service/AuthorService.java:39 | Concrete input: a request with no birth year is refused by the code as written. |
| `AuthorService.AddAuthorAsWritten` | src/main/java/com/kode/bookaccountingservice/service/AuthorService.java:36-42 | The code as written. With no birth year it fails with a null-pointer failure and saves nothing: both tables and both counters are unchanged. Otherwise it stores the author built from the request under a fresh id and draws that id. The books table is unchanged. |
| `AuthorService.AddAuthor` | src/main/java/com/kode/bookaccountingservice/service/AuthorService.java:36-42 | The corrected `addAuthor` (see the Findings section). Always succeeds. Stores one new author under a fresh id, with the request's name and (optional) birth year. Earlier authors, the books table and the book counter are unchanged. An existing name is stored again, which breaks name uniqueness. |
| `AuthorService.GetAuthors` | src/main/java/com/kode/bookaccountingservice/service/AuthorService.java:51-55 | Returns at most `size` authors: the listing from offset `page*size`, consecutive and in ascending id order. Each is a stored author. A page past the end is empty. The table is only read. |
| `AuthorService.GetAuthorById` | src/main/java/com/kode/bookaccountingservice/service/AuthorService.java:63-66 | Returns the stored author with that id if there is one, and empty otherwise. It never fails and never writes. |
| `BookService.ToBookResponse` | src/main/java/com/kode/bookaccountingservice/service/BookService.java:140-148 | The response keeps the book's id and carries its author's id. Resolving that id against a table holding just the book's author gives back the book, so the response loses nothing else. |
| `BookService.ProjectionRoundTrip` | src/main/java/com/kode/bookaccountingservice/service/BookService.java:140-148 | Looking up a response's author id in the authors table rebuilds the book exactly. The projection only drops the author's details. |
| `BookService.ProjectionKernel` | src/main/java/com/kode/bookaccountingservice/service/BookService.java:140-148 | Two books project to the same response if and only if they differ at most in the author's details, not in its id. |
| `BookService.AddBook` | src/main/java/com/kode/bookaccountingservice/service/BookService.java:43-60 | A taken title fails with BookAlreadyExists, even if the author id is unknown. A free title with an unknown author fails with AuthorNotFound for that id. Either failure saves nothing. Otherwise one book is saved under a fresh id, with the request's title, year and genre and the stored author. Other books and the authors table are unchanged. Title uniqueness is preserved. |
| `BookService.ProjectAll` | src/main/java/com/kode/bookaccountingservice/service/BookService.java:71 | The stream `map(toBookResponse)`: one response per listed book, same length, position by position. |
| `BookService.GetAllBooks` | src/main/java/com/kode/bookaccountingservice/service/BookService.java:67-72 | Returns one response per stored book, in ascending id order. Each response is the projection of the book with its id. Every stored book appears. Nothing is written. |
| `BookService.GetBookById` | src/main/java/com/kode/bookaccountingservice/service/BookService.java:80-94 | A missing id fails with BookNotFound for that id. A present id returns the present projection of its book. Nothing is written. |
| `BookService.Overwrite` | src/main/java/com/kode/bookaccountingservice/service/BookService.java:111-113 | Takes title, year and genre from the request. Keeps the book's id and its author. |
| `BookService.OverwriteIgnoresAuthorId` | src/main/java/com/kode/bookaccountingservice/service/BookService.java:111-113 | The request's author id has no effect on an update. The response keeps the stored author's id. |
| `BookService.UpdateBook` | src/main/java/com/kode/bookaccountingservice/service/BookService.java:103-116 | A missing id fails with BookNotFound and saves nothing. Otherwise only that book's title, year and genre change. Every other book, the authors table and both counters are unchanged. |
| `BookService.UpdateCanDuplicateTitle` | src/main/java/com/kode/bookaccountingservice/service/BookService.java:111-114 | Update checks no titles: giving any stored book the title of another stored book leaves two books with the same title. |
| `BookService.DeleteBook` | src/main/java/com/kode/bookaccountingservice/service/BookService.java:124-133 | A missing id fails with BookNotFound and deletes nothing. Otherwise exactly that book is removed. The authors table and both counters are unchanged, and title uniqueness is preserved. |

## Left out

- Store.Catalogue.AllAuthors: `findAll` is called with no `Sort`, so the database fixes no order. The model chooses ascending id, and so does `Store.Catalogue.AllBooks`. Within this model, the orderings promised by `AuthorService.GetAuthors` and `BookService.GetAllBooks` hold only under that choice. So does `Paging.ItemOnItsPage`'s "paging loses nothing" once separate page queries are compared.
- Controllers (`BookController.java`, `AuthorController.java`): HTTP routing, `ResponseEntity` building and API-documentation annotations are not part of this model.
- Logging: every `log.*` call is a side effect with no effect on results.
- Transactions and concurrency: each operation is one atomic step on the maps. The check-then-save race on titles is therefore not represented.
- Page metadata: `getAuthors` returns the page's content only. The total count and other `Page` fields are not modelled.
- `PageRequest.of` rejects `page < 0` and `size < 1`. Those calls are excluded by a precondition and not modelled as failures.
- Null request fields other than the birth year (the author's name, and a book's title, author id, year and genre): the model's requests always carry values. With a null author name, the not-null `name` column would reject the save and no author would be stored. With a null author id, `findById` would throw. With a null title, year or genre, the not-null columns would reject the save.
- Reading an author without a birth year through `Author.getBirthYear()` (which returns `int`) would also unbox null. That happens when responses are serialized, which is outside this model.
- Exception messages: each failure kind carries the id its message mentions instead of the message text. The exception classes themselves are not part of this model.
- The identity columns are 64-bit. Their overflow is not modelled, since ids are unbounded integers here.
- Clock: the validation response's timestamp is a parameter.
- `BookService.GetBookById`: the second fetch after the existence check is always present in this atomic model. The code's empty-optional branch after a passed check is unreachable here.
- `existsByName` and `existsByTitle` are not declared in the repositories shown. They are modelled as "some stored row has this name/title".

## Findings

| source | as written | input that shows it | evidently intended | confidence | as-written member | corrected member |
|---|---|---|---|---|---|---|
| src/main/java/com/kode/bookaccountingservice/service/AuthorService.java:39 | `addAuthor` passes the request's nullable `Integer` birth year to `Author.setBirthYear(int)`, which unboxes it | an author request with name "Pushkin" and no birth year: the unboxing throws and no author is stored | store the author with no birth year; the request field is documented as nullable and the column allows null | high; not executed | `AuthorService.BuildAuthorAsWritten` | `AuthorService.AddAuthor` |
