/**
 * Offset paging as the store applies it to `findAll(PageRequest.of(page, size))`:
 * page `page` holds the items from offset `page * size`, at most `size` of them.
 */
module Paging {

  /** At most `size` items of `all` from offset `lo`; empty past the end. */
  function Window<T>(all: seq<T>, lo: nat, size: nat): (r: seq<T>)
    ensures |r| <= size
    ensures lo >= |all| ==> r == []
    ensures lo < |all| ==> |r| == if |all| - lo < size then |all| - lo else size
    ensures forall i {:trigger r[i]} :: 0 <= i < |r| ==> lo + i < |all| && r[i] == all[lo + i]
  {
    if lo >= |all| then []
    else if |all| - lo < size then all[lo..]
    else all[lo..lo + size]
  }

  /** The `page`-th page of `size` items of `all`. */
  function PageOf<T>(all: seq<T>, page: nat, size: nat): (r: seq<T>)
    requires size >= 1
    ensures |r| <= size
    ensures forall i {:trigger r[i]} :: 0 <= i < |r| ==> page * size + i < |all| && r[i] == all[page * size + i]
  {
    Window(all, page * size, size)
  }

  /** Each item of the full listing is found at its offset on page `k / size`. */
  lemma ItemOnItsPage<T>(all: seq<T>, size: nat, k: nat)
    requires size >= 1 && k < |all|
    ensures k % size < |PageOf(all, k / size, size)|
    ensures PageOf(all, k / size, size)[k % size] == all[k]
  {
    var page := k / size;
    assert page * size + k % size == k;
  }
}
