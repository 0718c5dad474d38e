/**
 * The two JPA repositories behind the services, as one in-memory catalogue:
 * the `authors` and `books` tables keyed by id, and the next value of each
 * table's identity column. `findAll` lists a table in ascending id order.
 */
module Store {
  import opened Entities

  /** The keys of `m` below `n`, in ascending order. */
  function KeysBelow<T>(m: map<int, T>, n: nat): (ks: seq<int>)
    ensures forall i :: 0 <= i < |ks| ==> ks[i] in m && 0 <= ks[i] < n
    ensures forall i, j :: 0 <= i < j < |ks| ==> ks[i] < ks[j]
    ensures forall k :: k in m && 0 <= k < n ==> k in ks
  {
    if n == 0 then []
    else
      var prefix := KeysBelow(m, n - 1);
      if n - 1 in m then prefix + [n - 1] else prefix
  }

  /** A strictly increasing sequence has as many elements as its set. */
  lemma {:induction false} IncreasingCard(ks: seq<int>)
    requires forall i, j :: 0 <= i < j < |ks| ==> ks[i] < ks[j]
    ensures |set k | k in ks| == |ks|
  {
    if ks != [] {
      var init := ks[..|ks| - 1];
      IncreasingCard(init);
      assert (set k | k in ks) == (set k | k in init) + {ks[|ks| - 1]};
      assert ks[|ks| - 1] !in (set k | k in init);
    }
  }

  /** When every key lies below `n`, `KeysBelow` lists all of them. */
  lemma KeysBelowCount<T>(m: map<int, T>, n: nat)
    requires forall k :: k in m ==> 0 <= k < n
    ensures |KeysBelow(m, n)| == |m|
  {
    var ks := KeysBelow(m, n);
    IncreasingCard(ks);
    assert (set k | k in ks) == m.Keys;
  }

  /** The values of `m` under the keys below `n`, in ascending key order. */
  function ValuesInKeyOrder<T>(m: map<int, T>, n: nat): seq<T>
  {
    var ks := KeysBelow(m, n);
    seq(|ks|, i requires 0 <= i < |ks| => m[ks[i]])
  }

  /**
   * When every key lies below `n`, `ValuesInKeyOrder` holds exactly the
   * values of `m`: the i-th one under the i-th smallest key.
   */
  lemma ValuesInKeyOrderFacts<T>(m: map<int, T>, n: nat)
    requires forall k :: k in m ==> 0 <= k < n
    ensures |ValuesInKeyOrder(m, n)| == |KeysBelow(m, n)| == |m|
    ensures forall i :: 0 <= i < |KeysBelow(m, n)| ==>
              KeysBelow(m, n)[i] in m && ValuesInKeyOrder(m, n)[i] == m[KeysBelow(m, n)[i]]
  {
    KeysBelowCount(m, n);
  }

  /**
   * The values of a table whose rows store their own key as id (`idOf` reads
   * that id), listed by `ValuesInKeyOrder`: each stored row exactly once, by
   * ascending id.
   */
  lemma InIdOrder<T>(m: map<int, T>, n: nat, idOf: T -> int)
    requires forall id :: id in m ==> 0 <= id < n && idOf(m[id]) == id
    ensures var r := ValuesInKeyOrder(m, n);
      && (forall i :: 0 <= i < |r| ==> idOf(r[i]) in m && m[idOf(r[i])] == r[i])
      && (forall i, j :: 0 <= i < j < |r| ==> idOf(r[i]) < idOf(r[j]))
  {
    ValuesInKeyOrderFacts(m, n);
  }

  /**
   * The same listing misses no row: it is as long as the table and holds
   * every stored id.
   */
  lemma ListingComplete<T>(m: map<int, T>, n: nat, idOf: T -> int)
    requires forall id :: id in m ==> 0 <= id < n && idOf(m[id]) == id
    ensures |ValuesInKeyOrder(m, n)| == |m|
    ensures forall id :: id in m ==>
              exists i :: 0 <= i < |ValuesInKeyOrder(m, n)| && idOf(ValuesInKeyOrder(m, n)[i]) == id
  {
    var ks, r := KeysBelow(m, n), ValuesInKeyOrder(m, n);
    ValuesInKeyOrderFacts(m, n);
    forall id | id in m ensures exists i :: 0 <= i < |r| && idOf(r[i]) == id {
      var i :| 0 <= i < |ks| && ks[i] == id;
      assert idOf(r[i]) == id;
    }
  }

  /** No two stored books have the same title. */
  ghost predicate TitlesUnique(books: map<int, Book>)
  {
    forall i, j :: i in books && j in books && books[i].title == books[j].title ==> i == j
  }

  /** No two stored authors have the same name. */
  ghost predicate NamesUnique(authors: map<int, Author>)
  {
    forall i, j :: i in authors && j in authors && authors[i].name == authors[j].name ==> i == j
  }

  class Catalogue {
    var authors: map<int, Author>
    var books: map<int, Book>
    var nextAuthorId: nat
    var nextBookId: nat

    /**
     * Ids start at 1 and lie below the table's counter; every row stores its
     * own key as id; every book's author is the stored author with that id
     * (the foreign key is not nullable).
     */
    ghost predicate Valid()
      reads this
    {
      && 1 <= nextAuthorId && 1 <= nextBookId
      && (forall id :: id in authors ==> 1 <= id < nextAuthorId && authors[id].id == id)
      && (forall id :: id in books ==>
            && 1 <= id < nextBookId && books[id].id == id
            && books[id].author.id in authors && authors[books[id].author.id] == books[id].author)
    }

    /** Two empty tables whose identity columns start at 1. */
    constructor ()
      ensures Valid()
      ensures authors == map[] && books == map[] && nextAuthorId == 1 && nextBookId == 1
    {
      authors, books := map[], map[];
      nextAuthorId, nextBookId := 1, 1;
    }

    /** `existsByTitle`: some stored book has this title. */
    predicate ExistsByTitle(title: string)
      reads this
    {
      exists id | id in books :: books[id].title == title
    }

    /** `existsByName`: some stored author has this name. */
    predicate ExistsByName(name: string)
      reads this
    {
      exists id | id in authors :: authors[id].name == name
    }

    function FindAuthorById(id: int): Option<Author>
      reads this
    {
      if id in authors then Some(authors[id]) else None
    }

    function FindBookById(id: int): Option<Book>
      reads this
    {
      if id in books then Some(books[id]) else None
    }

    /** `findAll` on the authors table: every stored author once, by ascending id. */
    function AllAuthors(): (r: seq<Author>)
      reads this
      requires Valid()
      ensures forall i :: 0 <= i < |r| ==> r[i].id in authors && authors[r[i].id] == r[i]
      ensures forall i, j :: 0 <= i < j < |r| ==> r[i].id < r[j].id
    {
      InIdOrder(authors, nextAuthorId, (a: Author) => a.id);
      ValuesInKeyOrder(authors, nextAuthorId)
    }

    /** `findAll` on the books table: every stored book once, by ascending id. */
    function AllBooks(): (r: seq<Book>)
      reads this
      requires Valid()
      ensures forall i :: 0 <= i < |r| ==> r[i].id in books && books[r[i].id] == r[i]
      ensures forall i, j :: 0 <= i < j < |r| ==> r[i].id < r[j].id
    {
      InIdOrder(books, nextBookId, (b: Book) => b.id);
      ValuesInKeyOrder(books, nextBookId)
    }

    /**
     * `findAll` on the authors table misses no row: it lists as many rows as
     * the table holds and every stored id among them, so, ids being
     * increasing, each stored author exactly once.
     */
    lemma AuthorsListingComplete()
      requires Valid()
      ensures |AllAuthors()| == |authors|
      ensures forall id :: id in authors ==> exists i :: 0 <= i < |AllAuthors()| && AllAuthors()[i].id == id
    {
      ListingComplete(authors, nextAuthorId, (a: Author) => a.id);
    }

    /** The same for `findAll` on the books table. */
    lemma BooksListingComplete()
      requires Valid()
      ensures |AllBooks()| == |books|
      ensures forall id :: id in books ==> exists i :: 0 <= i < |AllBooks()| && AllBooks()[i].id == id
    {
      ListingComplete(books, nextBookId, (b: Book) => b.id);
    }
  }
}
