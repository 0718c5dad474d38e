/**
 * The catalogue's records: the two JPA entities (authors and books) and the
 * request/response objects that cross the service boundary. Identifiers are
 * the `Long` values of the tables' identity columns, modelled as `int`.
 */
module Entities {

  datatype Option<+T> = None | Some(value: T)

  /** A row of the `authors` table; the birth year column is nullable. */
  datatype Author = Author(id: int, name: string, birthYear: Option<int>)

  /**
   * A row of the `books` table. The many-to-one link to the author is held as
   * the author record itself (authors are never updated or deleted, so the
   * record and the row it refers to cannot drift apart).
   */
  datatype Book = Book(id: int, title: string, author: Author, year: int, genre: string)

  /** Payload of an author creation; the birth year may be absent (null). */
  datatype AuthorRequest = AuthorRequest(name: string, birthYear: Option<int>)

  /** Payload of a book creation or update; the author is named by id. */
  datatype BookRequest = BookRequest(title: string, authorId: int, year: int, genre: string)

  /** What a book looks like to clients: the author flattened to its id. */
  datatype BookResponse = BookResponse(id: int, title: string, authorId: int, year: int, genre: string)
}
