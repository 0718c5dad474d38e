/**
 * A client of the services, proved from their contracts alone: one author
 * and one book are added, the book is read back, a second book with the same
 * title is refused, and after deletion the book is gone.
 */
module Scenario {
  import opened Entities
  import opened Exceptions
  import opened Store
  import AuthorService
  import BookService

  method CatalogueSession()
  {
    var repo := new Catalogue();
    AuthorService.AddAuthor(repo, AuthorRequest("Pushkin", Some(1799)));
    assert AuthorService.GetAuthorById(repo, 1) == Some(Author(1, "Pushkin", Some(1799)));

    var req := BookRequest("Tale", 1, 1836, "Novel");
    assert !repo.ExistsByTitle("Tale");
    var added := BookService.AddBook(repo, req);
    assert added == Success;

    var got := BookService.GetBookById(repo, 1);
    assert got == Ok(Some(BookResponse(1, "Tale", 1, 1836, "Novel")));

    assert repo.ExistsByTitle("Tale") by { assert repo.books[1].title == "Tale"; }
    var again := BookService.AddBook(repo, BookRequest("Tale", 7, 1836, "Novel"));
    assert again == Failure(BookAlreadyExists);

    var deleted := BookService.DeleteBook(repo, 1);
    assert deleted == Success;
    var gone := BookService.GetBookById(repo, 1);
    assert gone == Err(BookNotFound(1));
    assert Handle(gone.error) == Some(ErrorResponse(NOT_FOUND, BookNotFound(1)));
  }
}
