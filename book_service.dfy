/**
 * Book management: create (title uniqueness, then author resolution), full
 * listing, lookup, update of title/year/genre, and delete. Each call runs as
 * one atomic step on the catalogue; none of them touches the authors table.
 */
module BookService {
  import opened Entities
  import opened Exceptions
  import opened Store

  /** `toBookResponse`: the book with its author flattened to the author's id. */
  function ToBookResponse(b: Book): (r: BookResponse)
    ensures r.id == b.id && r.authorId == b.author.id
    ensures ResolveBook(r, map[b.author.id := b.author]) == Some(b)
  {
    BookResponse(b.id, b.title, b.author.id, b.year, b.genre)
  }

  /** Rebuilds a book from its response by looking the author id up again. */
  function ResolveBook(resp: BookResponse, authors: map<int, Author>): Option<Book>
  {
    if resp.authorId in authors
    then Some(Book(resp.id, resp.title, authors[resp.authorId], resp.year, resp.genre))
    else None
  }

  /**
   * The projection loses only the author's details, which its id recovers
   * from a table holding that author.
   */
  lemma ProjectionRoundTrip(b: Book, authors: map<int, Author>)
    requires b.author.id in authors && authors[b.author.id] == b.author
    ensures ResolveBook(ToBookResponse(b), authors) == Some(b)
  {
  }

  /** Two books project to the same response exactly when they differ at most in their author's details. */
  lemma ProjectionKernel(b1: Book, b2: Book)
    ensures ToBookResponse(b1) == ToBookResponse(b2) <==>
              b1.author.id == b2.author.id && b1.(author := b2.author) == b2
  {
  }

  /** The entity after `updateBook`'s setters: title, year and genre from the request. */
  function Overwrite(b: Book, req: BookRequest): (r: Book)
    ensures r.id == b.id && r.author == b.author
    ensures r.title == req.title && r.year == req.year && r.genre == req.genre
  {
    b.(title := req.title, year := req.year, genre := req.genre)
  }

  /** The request's author id plays no part in an update. */
  lemma OverwriteIgnoresAuthorId(b: Book, req: BookRequest, otherAuthorId: int)
    ensures Overwrite(b, req) == Overwrite(b, req.(authorId := otherAuthorId))
    ensures ToBookResponse(Overwrite(b, req)).authorId == b.author.id
  {
  }

  /**
   * `updateBook` has no title check: giving a stored book the title of
   * another stored book leaves two books with one title.
   */
  lemma UpdateCanDuplicateTitle(books: map<int, Book>, id: int, other: int, req: BookRequest)
    requires id in books && other in books && id != other
    requires req.title == books[other].title
    ensures !TitlesUnique(books[id := Overwrite(books[id], req)])
  {
    var after := books[id := Overwrite(books[id], req)];
    assert after[id].title == after[other].title;
  }

  /**
   * `addBook`: a taken title fails with BookAlreadyExists before the author is
   * looked up; otherwise an unknown author id fails with AuthorNotFound;
   * otherwise one new book, bound to the stored author, is saved under the
   * next identity value. A failure saves nothing.
   */
  method AddBook(repo: Catalogue, req: BookRequest) returns (r: Outcome)
    requires repo.Valid()
    modifies repo
    ensures repo.Valid()
    ensures repo.authors == old(repo.authors) && repo.nextAuthorId == old(repo.nextAuthorId)
    ensures old(repo.ExistsByTitle(req.title)) ==>
              r == Failure(BookAlreadyExists)
              && repo.books == old(repo.books) && repo.nextBookId == old(repo.nextBookId)
    ensures !old(repo.ExistsByTitle(req.title)) && req.authorId !in old(repo.authors) ==>
              r == Failure(AuthorNotFound(req.authorId))
              && repo.books == old(repo.books) && repo.nextBookId == old(repo.nextBookId)
    ensures !old(repo.ExistsByTitle(req.title)) && req.authorId in old(repo.authors) ==>
              && r == Success
              && old(repo.nextBookId) !in old(repo.books)
              && repo.books == old(repo.books)[old(repo.nextBookId) :=
                   Book(old(repo.nextBookId), req.title, repo.authors[req.authorId], req.year, req.genre)]
              && repo.nextBookId == old(repo.nextBookId) + 1
    ensures TitlesUnique(old(repo.books)) ==> TitlesUnique(repo.books)
  {
    if repo.ExistsByTitle(req.title) {
      return Failure(BookAlreadyExists);
    }
    var found := repo.FindAuthorById(req.authorId);
    if found.None? {
      return Failure(AuthorNotFound(req.authorId));
    }
    var id := repo.nextBookId;
    repo.books := repo.books[id := Book(id, req.title, found.value, req.year, req.genre)];
    repo.nextBookId := id + 1;
    r := Success;
  }

  /** The stream `map(toBookResponse)` over a listing. */
  function ProjectAll(books: seq<Book>): (r: seq<BookResponse>)
    ensures |r| == |books|
    ensures forall i {:trigger r[i]} :: 0 <= i < |r| ==> r[i] == ToBookResponse(books[i])
  {
    seq(|books|, i requires 0 <= i < |books| => ToBookResponse(books[i]))
  }

  /** Projecting an id-ordered listing of every stored book keeps ids, order and coverage. */
  lemma ProjectListing(all: seq<Book>, books: map<int, Book>)
    requires forall i :: 0 <= i < |all| ==> all[i].id in books && books[all[i].id] == all[i]
    requires forall id :: id in books ==> exists i :: 0 <= i < |all| && all[i].id == id
    requires forall i, j :: 0 <= i < j < |all| ==> all[i].id < all[j].id
    ensures var r := ProjectAll(all);
      && (forall i :: 0 <= i < |r| ==> r[i].id in books && r[i] == ToBookResponse(books[r[i].id]))
      && (forall id :: id in books ==> exists i :: 0 <= i < |r| && r[i].id == id)
      && (forall i, j :: 0 <= i < j < |r| ==> r[i].id < r[j].id)
  {
    var r := ProjectAll(all);
    forall id | id in books ensures exists i :: 0 <= i < |r| && r[i].id == id {
      var i :| 0 <= i < |all| && all[i].id == id;
      assert r[i].id == id;
    }
  }

  /**
   * `getAllBooks`: one response per stored book, in ascending id order, each
   * the projection of that book; the tables are only read.
   */
  function GetAllBooks(repo: Catalogue): (r: seq<BookResponse>)
    reads repo
    requires repo.Valid()
    ensures |r| == |repo.books|
    ensures forall i :: 0 <= i < |r| ==> r[i].id in repo.books && r[i] == ToBookResponse(repo.books[r[i].id])
    ensures forall id :: id in repo.books ==> exists i :: 0 <= i < |r| && r[i].id == id
    ensures forall i, j :: 0 <= i < j < |r| ==> r[i].id < r[j].id
  {
    var all := repo.AllBooks();
    repo.BooksListingComplete();
    ProjectListing(all, repo.books);
    ProjectAll(all)
  }

  /**
   * `getBookById`: an id not in the table fails with BookNotFound before any
   * fetch; a stored id answers the projection of its book. The tables are
   * only read.
   */
  method GetBookById(repo: Catalogue, id: int) returns (r: Result<Option<BookResponse>>)
    requires repo.Valid()
    ensures r.Err? <==> id !in repo.books
    ensures r.Err? ==> r.error == BookNotFound(id)
    ensures r.Ok? ==> r.value.Some? && r.value.value == ToBookResponse(repo.books[id]) && r.value.value.id == id
  {
    if id !in repo.books {
      return Err(BookNotFound(id));
    }
    var book := repo.FindBookById(id);
    r := Ok(match book case Some(b) => Some(ToBookResponse(b)) case None => None);
  }

  /**
   * `updateBook`: an unknown id fails with BookNotFound and saves nothing;
   * otherwise the stored book gets the request's title, year and genre and
   * keeps its id and author. Every other book is unchanged.
   */
  method UpdateBook(repo: Catalogue, id: int, req: BookRequest) returns (r: Outcome)
    requires repo.Valid()
    modifies repo
    ensures repo.Valid()
    ensures repo.authors == old(repo.authors) && repo.nextAuthorId == old(repo.nextAuthorId)
    ensures repo.nextBookId == old(repo.nextBookId)
    ensures id !in old(repo.books) ==> r == Failure(BookNotFound(id)) && repo.books == old(repo.books)
    ensures id in old(repo.books) ==>
              r == Success && repo.books == old(repo.books)[id := Overwrite(old(repo.books)[id], req)]
  {
    var found := repo.FindBookById(id);
    if found.None? {
      return Failure(BookNotFound(id));
    }
    repo.books := repo.books[id := Overwrite(found.value, req)];
    r := Success;
  }

  /**
   * `deleteBook`: an unknown id fails with BookNotFound and deletes nothing;
   * otherwise exactly that book is removed.
   */
  method DeleteBook(repo: Catalogue, id: int) returns (r: Outcome)
    requires repo.Valid()
    modifies repo
    ensures repo.Valid()
    ensures repo.authors == old(repo.authors) && repo.nextAuthorId == old(repo.nextAuthorId)
    ensures repo.nextBookId == old(repo.nextBookId)
    ensures id !in old(repo.books) ==> r == Failure(BookNotFound(id)) && repo.books == old(repo.books)
    ensures id in old(repo.books) ==> r == Success && repo.books == old(repo.books) - {id}
    ensures TitlesUnique(old(repo.books)) ==> TitlesUnique(repo.books)
  {
    if id !in repo.books {
      return Failure(BookNotFound(id));
    }
    repo.books := repo.books - {id};
    r := Success;
  }
}
