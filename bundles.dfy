/** Bundles of copies (bundles/models.py): the bundle's own status, its
    member set, the availability predicate, and the effect the membership
    operations and their signal handler have on member statuses, stated as
    functions of the state before the operation. The operations themselves,
    which change the store in place, are in BundleOps. */
module Bundles {
  import opened Common
  import Books
  import Text

  /** Bundle.Status: NOR, BOR, PRE, LOS. */
  datatype BundleStatus = Normal | Borrowed | Preparing | Lost

  datatype Bundle = Bundle(code: string, name: string, status: BundleStatus, members: set<BookId>)

  /** The argument of `add_books` and `remove_books`: one book, or a list
      (a tuple behaves the same). */
  datatype BookArg = One(book: BookId) | Many(books: seq<BookId>)

  /** `if not isinstance(books, (list, tuple)): books = [books]` */
  function AsList(arg: BookArg): (ids: seq<BookId>)
    ensures arg.One? ==> ids == [arg.book]
    ensures arg.Many? ==> ids == arg.books
  {
    match arg
    case One(k) => [k]
    case Many(ks) => ks
  }

  /** The code `save` stores: the given one, upper-cased. */
  function SavedCode(code: string): (r: string)
    ensures |r| == |code|
    ensures Text.Upper(r) == r
  {
    Text.UpperIdempotent(code);
    Text.Upper(code)
  }

  /** Members whose own status is IN_BUNDLE. */
  function InBundleMembers(books: map<BookId, Books.Book>, members: set<BookId>): (r: set<BookId>)
    ensures r <= members && forall k | k in r :: k in books
    ensures forall k | k in members && k in books :: k in r <==> books[k].status == Books.InBundle
  {
    set k | k in members && k in books && books[k].status == Books.InBundle
  }

  /** `available_books_count`: the number of members whose status is
      IN_BUNDLE, which never exceeds the number of members. */
  function AvailableBooksCount(books: map<BookId, Books.Book>, b: Bundle): (n: nat)
    ensures n == |InBundleMembers(books, b.members)|
    ensures n <= |b.members|
  {
    var r := InBundleMembers(books, b.members);
    SubsetSize(r, b.members);
    |r|
  }

  /** `is_available`: NORMAL, at least one member, and as many members with
      status IN_BUNDLE as there are members. */
  predicate IsAvailable(books: map<BookId, Books.Book>, b: Bundle)
    ensures IsAvailable(books, b) ==>
      && b.status == Normal && b.members != {}
      && forall k | k in b.members :: k in books && books[k].status == Books.InBundle
  {
    var r := InBundleMembers(books, b.members);
    SubsetSize(r, b.members);
    b.status == Normal && |b.members| > 0 && AvailableBooksCount(books, b) == |b.members|
  }

  lemma SubsetSize<T>(a: set<T>, b: set<T>)
    requires a <= b
    ensures |a| <= |b|
    ensures |a| == |b| ==> a == b
  {
    if a != {} {
      var x :| x in a;
      SubsetSize(a - {x}, b - {x});
      if |a| == |b| {
        assert a == (a - {x}) + {x};
        assert b == (b - {x}) + {x};
      }
    }
  }

  /** Counting members in `is_available` amounts to: NORMAL, non-empty, and
      every member IN_BUNDLE. */
  lemma AvailableIffAllInBundle(books: map<BookId, Books.Book>, b: Bundle)
    requires b.members <= books.Keys
    ensures IsAvailable(books, b) <==>
      b.status == Normal && b.members != {}
      && forall k | k in b.members :: books[k].status == Books.InBundle
  {
    var r := InBundleMembers(books, b.members);
    SubsetSize(r, b.members);
    if forall k | k in b.members :: books[k].status == Books.InBundle {
      assert r == b.members;
    }
  }

  /** `book.bundles.count()`: how many bundles list the book as a member. */
  function BundleCount(bundles: map<BundleId, Bundle>, k: BookId): nat
  {
    |set j | j in bundles && k in bundles[j].members|
  }

  predicate MayJoin(s: Books.BookStatus)
  {
    s != Books.Borrowed && s != Books.WrittenOff
  }

  /** The list comprehension of `add_books`: the given books, in order,
      without those BORROWED or WRITTEN_OFF. */
  function AddableBooks(books: map<BookId, Books.Book>, ids: seq<BookId>): (r: seq<BookId>)
    requires forall i | 0 <= i < |ids| :: ids[i] in books
    ensures |r| <= |ids|
    ensures forall k :: k in r <==> k in ids && MayJoin(books[k].status)
  {
    if ids == [] then []
    else
      var rest := AddableBooks(books, ids[1..]);
      if MayJoin(books[ids[0]].status) then [ids[0]] + rest else rest
  }

  /** `update_books_status`: every current member becomes IN_BUNDLE, every
      other copy keeps its status. */
  function MarkInBundle(books: map<BookId, Books.Book>, members: set<BookId>): (r: map<BookId, Books.Book>)
    ensures r.Keys == books.Keys
    ensures forall k | k in books :: r[k] == if k in members then books[k].(status := Books.InBundle) else books[k]
  {
    map k | k in books :: if k in members then books[k].(status := Books.InBundle) else books[k]
  }

  /** `remove_books_status`: each of the given copies that at most one
      bundle lists becomes NORMAL; every other copy keeps its status. */
  function ResetFreed(books: map<BookId, Books.Book>, bundles: map<BundleId, Bundle>, removed: set<BookId>): (r: map<BookId, Books.Book>)
    ensures r.Keys == books.Keys
    ensures forall k | k in books ::
      r[k] == if k in removed && BundleCount(bundles, k) <= 1 then books[k].(status := Books.Normal) else books[k]
  {
    map k | k in books :: if k in removed && BundleCount(bundles, k) <= 1 then books[k].(status := Books.Normal) else books[k]
  }

  /** Resetting one more copy is one more map update. */
  lemma ResetStep(books: map<BookId, Books.Book>, bundles: map<BundleId, Bundle>, done: set<BookId>, k: BookId)
    requires k in books && k !in done
    ensures ResetFreed(books, bundles, done + {k}) ==
      if BundleCount(bundles, k) <= 1 then ResetFreed(books, bundles, done)[k := books[k].(status := Books.Normal)]
      else ResetFreed(books, bundles, done)
  {
    var before := ResetFreed(books, bundles, done);
    var after := ResetFreed(books, bundles, done + {k});
    var expected := if BundleCount(bundles, k) <= 1 then before[k := books[k].(status := Books.Normal)] else before;
    assert forall j | j in books :: after[j] == expected[j];
  }

  /** The state `add_books` leaves: nothing happens when no given book may
      join; otherwise the bundle gains those books and then every member,
      old or new, is set to IN_BUNDLE. */
  function AddResult(books: map<BookId, Books.Book>, b: Bundle, ids: seq<BookId>): (r: (map<BookId, Books.Book>, Bundle))
    requires forall i | 0 <= i < |ids| :: ids[i] in books
  {
    var valid := AddableBooks(books, ids);
    if valid == [] then (books, b)
    else
      var nb := b.(members := b.members + set k | k in valid);
      (MarkInBundle(books, nb.members), nb)
  }

  /** The state `remove_books` leaves: the pre-removal reset runs while the
      bundle still lists the books, then the books leave the bundle. */
  function RemoveResult(books: map<BookId, Books.Book>, bundles: map<BundleId, Bundle>, id: BundleId, ids: seq<BookId>): (r: (map<BookId, Books.Book>, Bundle))
    requires id in bundles
  {
    var removed := set k | k in ids;
    (ResetFreed(books, bundles, removed), bundles[id].(members := bundles[id].members - removed))
  }

  /** What `add_books` promises: a book BORROWED or WRITTEN_OFF is never
      added; every other given book is; once anything is added every member
      is IN_BUNDLE; and the bundle's own status never changes. */
  lemma AddSemantics(books: map<BookId, Books.Book>, b: Bundle, ids: seq<BookId>)
    requires forall i | 0 <= i < |ids| :: ids[i] in books
    ensures var (nbooks, nb) := AddResult(books, b, ids);
      && nb.status == b.status && nb.code == b.code
      && (forall k | k in ids :: k in nb.members <==> k in b.members || MayJoin(books[k].status))
      && nb.members - b.members <= set k | k in ids
      && ((exists k | k in ids :: MayJoin(books[k].status)) ==>
            forall k | k in nb.members && k in books :: nbooks[k].status == Books.InBundle)
  {
    var valid := AddableBooks(books, ids);
    if exists k | k in ids :: MayJoin(books[k].status) {
      var k :| k in ids && MayJoin(books[k].status);
      assert k in valid;
    }
  }

  /** Once books are added to a NORMAL bundle, it is available. */
  lemma AddMakesAvailable(books: map<BookId, Books.Book>, b: Bundle, ids: seq<BookId>)
    requires forall i | 0 <= i < |ids| :: ids[i] in books
    requires b.members <= books.Keys && b.status == Normal
    requires exists k | k in ids :: MayJoin(books[k].status)
    ensures IsAvailable(AddResult(books, b, ids).0, AddResult(books, b, ids).1)
  {
    AddSemantics(books, b, ids);
    var k :| k in ids && MayJoin(books[k].status);
    var (nbooks, nb) := AddResult(books, b, ids);
    assert k in nb.members;
    AvailableIffAllInBundle(nbooks, nb);
  }

  /** Removing a copy that only this bundle lists makes it NORMAL. */
  lemma RemoveFreesLastMembership(books: map<BookId, Books.Book>, bundles: map<BundleId, Bundle>, id: BundleId, ids: seq<BookId>, k: BookId)
    requires id in bundles && k in books && k in ids && k in bundles[id].members
    requires forall j | j in bundles && j != id :: k !in bundles[j].members
    ensures RemoveResult(books, bundles, id, ids).0[k].status == Books.Normal
    ensures k !in RemoveResult(books, bundles, id, ids).1.members
  {
    var s := set j | j in bundles && k in bundles[j].members;
    assert forall j :: j in s <==> j == id;
    assert s == {id};
  }

  /** Removing a copy that another bundle still lists leaves its status. */
  lemma RemoveKeepsSharedStatus(books: map<BookId, Books.Book>, bundles: map<BundleId, Bundle>, id: BundleId, ids: seq<BookId>, k: BookId, other: BundleId)
    requires id in bundles && other in bundles && other != id && k in books
    requires k in bundles[id].members && k in bundles[other].members
    ensures RemoveResult(books, bundles, id, ids).0[k] == books[k]
  {
    var s := set j | j in bundles && k in bundles[j].members;
    assert {id, other} <= s;
    SubsetSize({id, other}, s);
  }

  /** Removing books keeps an available bundle available as long as a member
      remains: the members that stay are not touched. */
  lemma RemoveKeepsRemainingAvailable(books: map<BookId, Books.Book>, bundles: map<BundleId, Bundle>, id: BundleId, ids: seq<BookId>)
    requires id in bundles && bundles[id].members <= books.Keys
    requires IsAvailable(books, bundles[id])
    requires bundles[id].members - (set k | k in ids) != {}
    ensures IsAvailable(RemoveResult(books, bundles, id, ids).0, RemoveResult(books, bundles, id, ids).1)
  {
    var (nbooks, nb) := RemoveResult(books, bundles, id, ids);
    AvailableIffAllInBundle(books, bundles[id]);
    AvailableIffAllInBundle(nbooks, nb);
  }

  /** A copy borrowed on its own is skipped when offered to a bundle: with X
      BORROWED and Y NORMAL offered to an empty NORMAL bundle, only Y joins,
      X stays BORROWED, and the bundle (whose only member is Y) is available. */
  lemma BorrowedCopySkipped(x: Books.Book, y: Books.Book)
    requires x.status == Books.Borrowed && y.status == Books.Normal
    ensures var books := map[1 := x, 2 := y];
      var (nbooks, nb) := AddResult(books, Bundle("B1", "", Normal, {}), [1, 2]);
      && nb.members == {2}
      && nbooks[1].status == Books.Borrowed && nbooks[2].status == Books.InBundle
      && IsAvailable(nbooks, nb)
  {
    var books := map[1 := x, 2 := y];
    var b := Bundle("B1", "", Normal, {});
    assert AddableBooks(books, [2]) == [2];
    assert AddableBooks(books, [1, 2]) == [2];
    assert (set k: BookId | k in [2]) == {2};
    AddMakesAvailable(books, b, [1, 2]);
  }

  /** As written, `remove_books` resets every copy it is given that at most
      one bundle lists, whether or not this bundle lists it: a copy offered
      for removal from a bundle it is not in becomes NORMAL even when it is
      BORROWED or the IN_BUNDLE member of another bundle. */
  lemma StrayRemovalResets(books: map<BookId, Books.Book>, bundles: map<BundleId, Bundle>, id: BundleId, ids: seq<BookId>, k: BookId)
    requires id in bundles && k in books && k in ids
    requires k !in bundles[id].members && BundleCount(bundles, k) <= 1
    ensures RemoveResult(books, bundles, id, ids).0[k].status == Books.Normal
  {
  }

  /** The concrete case: copy 1 is the only member of bundle 2 and is offered
      for removal from bundle 1, which does not list it. It becomes NORMAL, so
      bundle 2, available before, no longer is. */
  lemma StrayRemovalBreaksOtherBundle(x: Books.Book)
    requires x.status == Books.InBundle
    ensures var books := map[1 := x];
      var bundles := map[1 := Bundle("A1", "", Normal, {}), 2 := Bundle("A2", "", Normal, {1})];
      && IsAvailable(books, bundles[2])
      && !IsAvailable(RemoveResult(books, bundles, 1, [1]).0, bundles[2])
  {
    var books := map[1 := x];
    var bundles := map[1 := Bundle("A1", "", Normal, {}), 2 := Bundle("A2", "", Normal, {1})];
    var s := set j | j in bundles && 1 in bundles[j].members;
    assert forall j :: j in s <==> j == 2;
    assert s == {2};
    AvailableIffAllInBundle(books, bundles[2]);
    AvailableIffAllInBundle(RemoveResult(books, bundles, 1, [1]).0, bundles[2]);
  }

  /** The removal `remove_books_status` evidently intends: only copies this
      bundle lists and no other bundle lists become NORMAL. */
  function RemoveIntended(books: map<BookId, Books.Book>, bundles: map<BundleId, Bundle>, id: BundleId, ids: seq<BookId>): (r: (map<BookId, Books.Book>, Bundle))
    requires id in bundles
  {
    var removed := (set k | k in ids) * bundles[id].members;
    (ResetFreed(books, bundles, removed), bundles[id].(members := bundles[id].members - removed))
  }

  /** The intended removal leaves copies outside the bundle alone, frees the
      copies only this bundle listed, and keeps the status of copies another
      bundle still lists. */
  lemma RemoveIntendedSparesOthers(books: map<BookId, Books.Book>, bundles: map<BundleId, Bundle>, id: BundleId, ids: seq<BookId>)
    requires id in bundles
    ensures var (nbooks, nb) := RemoveIntended(books, bundles, id, ids);
      && nb.status == bundles[id].status
      && nb.members == bundles[id].members - set k | k in ids
      && nbooks.Keys == books.Keys
      && (forall k | k in books && k !in bundles[id].members :: nbooks[k] == books[k])
      && (forall k | k in books && k in ids && k in bundles[id].members ::
            nbooks[k].status == if (forall j | j in bundles && j != id :: k !in bundles[j].members) then Books.Normal else books[k].status)
  {
    var (nbooks, nb) := RemoveIntended(books, bundles, id, ids);
    forall k | k in books && k in ids && k in bundles[id].members
      ensures nbooks[k].status == if (forall j | j in bundles && j != id :: k !in bundles[j].members) then Books.Normal else books[k].status
    {
      if forall j | j in bundles && j != id :: k !in bundles[j].members {
        RemoveFreesLastMembership(books, bundles, id, [k], k);
      } else {
        var other :| other in bundles && other != id && k in bundles[other].members;
        RemoveKeepsSharedStatus(books, bundles, id, [k], k, other);
      }
    }
  }

  /** The state `clear_books` leaves as written: the bundle has no members
      and, because the post-clear reset iterates the members that are left,
      no copy's status changes. */
  function ClearResult(books: map<BookId, Books.Book>, b: Bundle): (r: (map<BookId, Books.Book>, Bundle))
  {
    (books, b.(members := {}))
  }

  /** A reset over no copies changes nothing. */
  lemma ResetNothing(books: map<BookId, Books.Book>, bundles: map<BundleId, Bundle>)
    ensures ResetFreed(books, bundles, {}) == books
  {
    var r := ResetFreed(books, bundles, {});
    assert forall k | k in books :: r[k] == books[k];
  }

  /** As written, clearing keeps the copies IN_BUNDLE although no bundle
      lists them any more; a former member that no other bundle lists stays
      IN_BUNDLE for good. */
  lemma ClearLeavesInBundle(books: map<BookId, Books.Book>, b: Bundle, k: BookId)
    requires k in books && k in b.members && books[k].status == Books.InBundle
    ensures k !in ClearResult(books, b).1.members
    ensures ClearResult(books, b).0[k].status == Books.InBundle
    ensures ClearResult(books, b).1.members == {} && ClearResult(books, b).1.status == b.status
  {
  }

  /** The reset the post-clear handler evidently intends: every former
      member that no remaining bundle lists becomes NORMAL. */
  function ClearIntended(books: map<BookId, Books.Book>, bundles: map<BundleId, Bundle>, id: BundleId): (r: (map<BookId, Books.Book>, Bundle))
    requires id in bundles
  {
    var after := bundles[id := bundles[id].(members := {})];
    (ResetFreed(books, after, set k | k in bundles[id].members && BundleCount(after, k) == 0), after[id])
  }

  /** While a bundle still lists a copy, the copy's bundle count is one more
      than it is once that bundle is cleared. */
  lemma ClearCountShift(bundles: map<BundleId, Bundle>, id: BundleId, k: BookId)
    requires id in bundles && k in bundles[id].members
    ensures BundleCount(bundles, k) == BundleCount(bundles[id := bundles[id].(members := {})], k) + 1
  {
    var after := bundles[id := bundles[id].(members := {})];
    var before := set j | j in bundles && k in bundles[j].members;
    var left := set j | j in after && k in after[j].members;
    assert before == left + {id};
    assert id !in left;
  }

  /** Resetting the members before the clear, as a pre-clear handler would,
      gives the state the intended clear describes. */
  lemma PreClearReset(books: map<BookId, Books.Book>, bundles: map<BundleId, Bundle>, id: BundleId)
    requires id in bundles
    ensures ResetFreed(books, bundles, bundles[id].members) == ClearIntended(books, bundles, id).0
  {
    var after := bundles[id := bundles[id].(members := {})];
    var chosen := set k | k in bundles[id].members && BundleCount(after, k) == 0;
    var early := ResetFreed(books, bundles, bundles[id].members);
    var late := ResetFreed(books, after, chosen);
    forall k | k in books ensures early[k] == late[k] {
      if k in bundles[id].members {
        ClearCountShift(bundles, id, k);
      }
    }
  }

  /** The intended clear frees exactly the former members no other bundle
      lists, and leaves every other copy alone. */
  lemma ClearIntendedFrees(books: map<BookId, Books.Book>, bundles: map<BundleId, Bundle>, id: BundleId)
    requires id in bundles
    ensures var (nbooks, nb) := ClearIntended(books, bundles, id);
      && nb.members == {} && nb.status == bundles[id].status
      && nbooks.Keys == books.Keys
      && (forall k | k in books && k !in bundles[id].members :: nbooks[k] == books[k])
      && (forall k | k in books && k in bundles[id].members ::
            nbooks[k].status == if (forall j | j in bundles && j != id :: k !in bundles[j].members) then Books.Normal else books[k].status)
  {
    var after := bundles[id := bundles[id].(members := {})];
    var (nbooks, nb) := ClearIntended(books, bundles, id);
    forall k | k in books && k in bundles[id].members
      ensures nbooks[k].status == if (forall j | j in bundles && j != id :: k !in bundles[j].members) then Books.Normal else books[k].status
    {
      var s := set j | j in after && k in after[j].members;
      if forall j | j in bundles && j != id :: k !in bundles[j].members {
        assert s == {};
      } else {
        var other :| other in bundles && other != id && k in bundles[other].members;
        assert other in s;
      }
    }
  }
}
