/**
 * Author management: create, paged listing and lookup by id. There is no
 * duplicate-name check and no not-found failure in this service.
 */
module AuthorService {
  import opened Entities
  import opened Exceptions
  import opened Store
  import opened Paging

  /**
   * The entity `addAuthor` builds, as the code is written: the request's
   * `Integer` birth year is handed to a setter taking `int`, so an absent
   * birth year is unboxed and throws before anything is stored. Wherever it
   * succeeds it builds the author `AddAuthor` stores.
   */
  function BuildAuthorAsWritten(id: int, req: AuthorRequest): (r: Result<Author>)
    ensures r.Ok? <==> req.birthYear.Some?
    ensures r.Err? ==> r.error == NullPointer
    ensures r.Ok? ==> r.value == Author(id, req.name, req.birthYear)
  {
    match req.birthYear
    case None => Err(NullPointer)
    case Some(year) => Ok(Author(id, req.name, Some(year)))
  }

  /** A request without a birth year, which the request type allows, is refused. */
  lemma AbsentBirthYearRejected(id: int, name: string)
    ensures BuildAuthorAsWritten(id, AuthorRequest(name, None)) == Err(NullPointer)
  {
  }

  /**
   * `addAuthor` as written: an absent birth year throws while the entity is
   * being built, so nothing is saved and no identity value is drawn;
   * otherwise the built author is stored under the next identity value,
   * whether or not the name is already taken.
   */
  method AddAuthorAsWritten(repo: Catalogue, req: AuthorRequest) returns (r: Outcome)
    requires repo.Valid()
    modifies repo
    ensures repo.Valid()
    ensures repo.books == old(repo.books) && repo.nextBookId == old(repo.nextBookId)
    ensures req.birthYear.None? ==>
              r == Failure(NullPointer)
              && repo.authors == old(repo.authors) && repo.nextAuthorId == old(repo.nextAuthorId)
    ensures req.birthYear.Some? ==>
              && r == Success
              && old(repo.nextAuthorId) !in old(repo.authors)
              && repo.authors == old(repo.authors)[old(repo.nextAuthorId) :=
                   BuildAuthorAsWritten(old(repo.nextAuthorId), req).value]
              && repo.nextAuthorId == old(repo.nextAuthorId) + 1
  {
    var id := repo.nextAuthorId;
    var built := BuildAuthorAsWritten(id, req);
    if built.Err? {
      return Failure(built.error);
    }
    repo.authors := repo.authors[id := built.value];
    repo.nextAuthorId := id + 1;
    r := Success;
  }

  /**
   * `addAuthor` as evidently intended: stores one new author under the next identity value, whether
   * or not the name is already taken. Nothing else changes.
   */
  method AddAuthor(repo: Catalogue, req: AuthorRequest)
    requires repo.Valid()
    modifies repo
    ensures repo.Valid()
    ensures old(repo.nextAuthorId) !in old(repo.authors)
    ensures repo.authors == old(repo.authors)[old(repo.nextAuthorId) :=
              Author(old(repo.nextAuthorId), req.name, req.birthYear)]
    ensures repo.nextAuthorId == old(repo.nextAuthorId) + 1
    ensures |repo.authors| == |old(repo.authors)| + 1
    ensures repo.books == old(repo.books) && repo.nextBookId == old(repo.nextBookId)
    ensures old(repo.ExistsByName(req.name)) ==> !NamesUnique(repo.authors)
  {
    var id := repo.nextAuthorId;
    repo.authors := repo.authors[id := Author(id, req.name, req.birthYear)];
    repo.nextAuthorId := id + 1;
    if old(repo.ExistsByName(req.name)) {
      var other :| other in old(repo.authors) && old(repo.authors)[other].name == req.name;
      assert other != id && repo.authors[other].name == repo.authors[id].name;
    }
  }

  /**
   * `getAuthors(page, size)`: the page of the authors table in ascending id
   * order. At most `size` authors, consecutive in that order, none past the
   * end; the table is only read.
   */
  function GetAuthors(repo: Catalogue, page: int, size: int): (r: seq<Author>)
    reads repo
    requires repo.Valid() && page >= 0 && size >= 1
    ensures |r| <= size
    ensures var all, lo := repo.AllAuthors(), page * size;
      && (lo >= |all| ==> r == [])
      && (lo < |all| ==> |r| == if |all| - lo < size then |all| - lo else size)
      && (forall i {:trigger r[i]} :: 0 <= i < |r| ==> lo + i < |all| && r[i] == all[lo + i])
    ensures forall i :: 0 <= i < |r| ==> r[i].id in repo.authors && repo.authors[r[i].id] == r[i]
    ensures forall i, j :: 0 <= i < j < |r| ==> r[i].id < r[j].id
  {
    var all := repo.AllAuthors();
    WindowOfListing(all, repo.authors, page * size, size);
    PageOf(all, page, size)
  }

  /** A window of an id-ordered listing of stored authors is itself one. */
  lemma WindowOfListing(all: seq<Author>, authors: map<int, Author>, lo: nat, size: nat)
    requires forall i :: 0 <= i < |all| ==> all[i].id in authors && authors[all[i].id] == all[i]
    requires forall i, j :: 0 <= i < j < |all| ==> all[i].id < all[j].id
    ensures forall i :: 0 <= i < |Window(all, lo, size)| ==>
              Window(all, lo, size)[i].id in authors && authors[Window(all, lo, size)[i].id] == Window(all, lo, size)[i]
    ensures forall i, j :: 0 <= i < j < |Window(all, lo, size)| ==>
              Window(all, lo, size)[i].id < Window(all, lo, size)[j].id
  {
    var r := Window(all, lo, size);
    forall i, j | 0 <= i < j < |r| ensures r[i].id < r[j].id {
      assert r[i] == all[lo + i] && r[j] == all[lo + j];
    }
  }

  /**
   * `getAuthorById`: the author stored under `id`, or empty; never a failure,
   * and the table is only read.
   */
  function GetAuthorById(repo: Catalogue, id: int): (r: Option<Author>)
    reads repo
    requires repo.Valid()
    ensures r.Some? <==> id in repo.authors
    ensures r.Some? ==> r.value == repo.authors[id] && r.value.id == id
  {
    repo.FindAuthorById(id)
  }
}
