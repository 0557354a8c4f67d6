/** The bundle operations of bundles/models.py that change the database in
    place: `save`, the two status updates, `add_books`, `remove_books`,
    `clear_books`, and the membership-change signal handler, which the
    membership operations trigger as Django's many-to-many manager does. */
module BundleOps {
  import opened Common
  import Books
  import Bundles
  import Store

  /** The `action` of an `m2m_changed` signal, with the `pk_set` the removal
      sends. */
  datatype M2MAction = PreAdd | PostAdd | PreRemove(pkSet: set<BookId>) | PostRemove | PreClear | PostClear

  /** `Bundle.save`: the code is stored upper-cased; a code another bundle
      already has is refused by the unique constraint. Saving writes the
      bundle's own fields; the member set is the stored one (empty for a new
      bundle). */
  method SaveBundle(lib: Store.Library, id: BundleId, b: Bundles.Bundle) returns (r: Outcome)
    requires lib.Valid()
    modifies lib
    ensures lib.Valid()
    ensures r.Fail? ==> r.error == DuplicateCode
    ensures r.Pass? <==> forall j | j in old(lib.bundles) && j != id :: old(lib.bundles)[j].code != Bundles.SavedCode(b.code)
    ensures r.Pass? ==> lib.bundles == old(lib.bundles)[id := b.(code := Bundles.SavedCode(b.code),
      members := if id in old(lib.bundles) then old(lib.bundles)[id].members else {})]
    ensures r.Fail? ==> lib.bundles == old(lib.bundles)
    ensures lib.books == old(lib.books) && lib.profiles == old(lib.profiles) && lib.subs == old(lib.subs)
    ensures lib.records == old(lib.records) && lib.loans == old(lib.loans)
  {
    var code := Bundles.SavedCode(b.code);
    if exists j | j in lib.bundles && j != id :: lib.bundles[j].code == code {
      return Fail(DuplicateCode);
    }
    var members := if id in lib.bundles then lib.bundles[id].members else {};
    lib.bundles := lib.bundles[id := b.(code := code, members := members)];
    r := Pass;
  }

  /** Saving a bundle a second time stores the same code. */
  lemma SaveTwiceSameCode(code: string)
    ensures Bundles.SavedCode(Bundles.SavedCode(code)) == Bundles.SavedCode(code)
  {
  }

  /** `update_books_status`: one query update setting every current member
      IN_BUNDLE. */
  method UpdateBooksStatus(lib: Store.Library, id: BundleId)
    requires lib.Valid() && id in lib.bundles
    modifies lib
    ensures lib.Valid()
    ensures lib.books == Bundles.MarkInBundle(old(lib.books), old(lib.bundles)[id].members)
    ensures lib.bundles == old(lib.bundles) && lib.profiles == old(lib.profiles) && lib.subs == old(lib.subs)
    ensures lib.records == old(lib.records) && lib.loans == old(lib.loans)
  {
    var nbooks := Bundles.MarkInBundle(lib.books, lib.bundles[id].members);
    Store.BookChangeKeepsConsistent(lib.books, nbooks, lib.bundles, lib.profiles, lib.subs, lib.records, lib.loans);
    lib.books := nbooks;
  }

  /** `remove_books_status`: for each given copy (by default the bundle's
      current members), when at most one bundle lists it, set it NORMAL. */
  method RemoveBooksStatus(lib: Store.Library, id: BundleId, toRemove: Option<set<BookId>>)
    requires lib.Valid() && id in lib.bundles
    requires toRemove.Some? ==> toRemove.value <= lib.books.Keys
    modifies lib
    ensures lib.Valid()
    ensures lib.books == Bundles.ResetFreed(old(lib.books), old(lib.bundles),
      if toRemove.Some? then toRemove.value else old(lib.bundles)[id].members)
    ensures lib.bundles == old(lib.bundles) && lib.profiles == old(lib.profiles) && lib.subs == old(lib.subs)
    ensures lib.records == old(lib.records) && lib.loans == old(lib.loans)
  {
    var given := if toRemove.Some? then toRemove.value else lib.bundles[id].members;
    ResetEach(lib, given);
    Store.BookChangeKeepsConsistent(old(lib.books), lib.books, lib.bundles, lib.profiles, lib.subs, lib.records, lib.loans);
  }

  /** The loop of `remove_books_status`, one copy at a time. */
  method ResetEach(lib: Store.Library, given: set<BookId>)
    requires given <= lib.books.Keys
    modifies lib
    ensures lib.books == Bundles.ResetFreed(old(lib.books), old(lib.bundles), given)
    ensures lib.bundles == old(lib.bundles) && lib.profiles == old(lib.profiles) && lib.subs == old(lib.subs)
    ensures lib.records == old(lib.records) && lib.loans == old(lib.loans)
  {
    var bundles := lib.bundles;
    var remaining := given;
    Bundles.ResetNothing(lib.books, bundles);
    while remaining != {}
      invariant remaining <= given
      invariant lib.books == Bundles.ResetFreed(old(lib.books), bundles, given - remaining)
      invariant lib.bundles == bundles == old(lib.bundles) && lib.profiles == old(lib.profiles) && lib.subs == old(lib.subs)
      invariant lib.records == old(lib.records) && lib.loans == old(lib.loans)
      decreases remaining
    {
      ghost var some := Element(remaining);
      var k :| k in remaining;
      Bundles.ResetStep(old(lib.books), bundles, given - remaining, k);
      if Bundles.BundleCount(bundles, k) <= 1 {
        lib.books := lib.books[k := lib.books[k].(status := Books.Normal)];
      }
      assert (given - remaining) + {k} == given - (remaining - {k});
      remaining := remaining - {k};
    }
    assert given - remaining == given;
  }

  /** `handle_bundle_books_changed`: after an addition every member becomes
      IN_BUNDLE; before a removal the given existing copies are reset; after a
      clear the reset runs over the members left, which are none. */
  method OnBooksChanged(lib: Store.Library, id: BundleId, action: M2MAction)
    requires lib.Valid() && id in lib.bundles
    modifies lib
    ensures lib.Valid()
    ensures action.PostAdd? ==> lib.books == Bundles.MarkInBundle(old(lib.books), old(lib.bundles)[id].members)
    ensures action.PreRemove? ==>
      lib.books == Bundles.ResetFreed(old(lib.books), old(lib.bundles), action.pkSet * old(lib.books).Keys)
    ensures action.PostClear? ==>
      lib.books == Bundles.ResetFreed(old(lib.books), old(lib.bundles), old(lib.bundles)[id].members)
    ensures !action.PostAdd? && !action.PreRemove? && !action.PostClear? ==> lib.books == old(lib.books)
    ensures lib.bundles == old(lib.bundles) && lib.profiles == old(lib.profiles) && lib.subs == old(lib.subs)
    ensures lib.records == old(lib.records) && lib.loans == old(lib.loans)
  {
    match action
    case PostAdd =>
      UpdateBooksStatus(lib, id);
    case PreRemove(pks) =>
      RemoveBooksStatus(lib, id, Some(pks * lib.books.Keys));
    case PostClear =>
      RemoveBooksStatus(lib, id, None);
    case _ =>
  }

  /** `add_books`: the copies that may join are added and, when there are
      any, the post-addition signal marks every member IN_BUNDLE. */
  method AddBooks(lib: Store.Library, id: BundleId, arg: Bundles.BookArg)
    requires lib.Valid() && id in lib.bundles
    requires forall i | 0 <= i < |Bundles.AsList(arg)| :: Bundles.AsList(arg)[i] in lib.books
    modifies lib
    ensures lib.Valid()
    ensures id in lib.bundles
    ensures (lib.books, lib.bundles[id]) == Bundles.AddResult(old(lib.books), old(lib.bundles)[id], Bundles.AsList(arg))
    ensures lib.bundles == old(lib.bundles)[id := lib.bundles[id]]
    ensures lib.profiles == old(lib.profiles) && lib.subs == old(lib.subs)
    ensures lib.records == old(lib.records) && lib.loans == old(lib.loans)
  {
    var ids := Bundles.AsList(arg);
    var valid := Bundles.AddableBooks(lib.books, ids);
    if valid != [] {
      var b := lib.bundles[id];
      lib.bundles := lib.bundles[id := b.(members := b.members + set k | k in valid)];
      OnBooksChanged(lib, id, PostAdd);
    }
  }

  /** `remove_books`: the pre-removal signal resets the given existing copies
      while the bundle still lists them; then they leave the bundle. */
  method RemoveBooks(lib: Store.Library, id: BundleId, arg: Bundles.BookArg)
    requires lib.Valid() && id in lib.bundles
    modifies lib
    ensures lib.Valid()
    ensures id in lib.bundles
    ensures (lib.books, lib.bundles[id]) == Bundles.RemoveResult(old(lib.books), old(lib.bundles), id, Bundles.AsList(arg))
    ensures lib.bundles == old(lib.bundles)[id := lib.bundles[id]]
    ensures lib.profiles == old(lib.profiles) && lib.subs == old(lib.subs)
    ensures lib.records == old(lib.records) && lib.loans == old(lib.loans)
  {
    var ids := Bundles.AsList(arg);
    var pks := set k | k in ids;
    OnBooksChanged(lib, id, PreRemove(pks));
    ghost var reset := lib.books;
    assert reset == Bundles.ResetFreed(old(lib.books), old(lib.bundles), pks) by {
      forall k | k in old(lib.books) ensures reset[k] == Bundles.ResetFreed(old(lib.books), old(lib.bundles), pks)[k] {
      }
    }
    var b := lib.bundles[id];
    lib.bundles := lib.bundles[id := b.(members := b.members - pks)];
  }

  /** `clear_books`: the bundle loses every member; the post-clear signal
      resets the members that are left, which are none, so no copy changes. */
  method ClearBooks(lib: Store.Library, id: BundleId)
    requires lib.Valid() && id in lib.bundles
    modifies lib
    ensures lib.Valid()
    ensures id in lib.bundles
    ensures (lib.books, lib.bundles[id]) == Bundles.ClearResult(old(lib.books), old(lib.bundles)[id])
    ensures lib.bundles == old(lib.bundles)[id := lib.bundles[id]]
    ensures lib.profiles == old(lib.profiles) && lib.subs == old(lib.subs)
    ensures lib.records == old(lib.records) && lib.loans == old(lib.loans)
  {
    var b := lib.bundles[id];
    lib.bundles := lib.bundles[id := b.(members := {})];
    OnBooksChanged(lib, id, PostClear);
    Bundles.ResetNothing(old(lib.books), lib.bundles);
  }

  /** `remove_books` as evidently intended: the pre-removal reset covers
      only the given copies this bundle lists, which then leave it. */
  method RemoveBooksIntended(lib: Store.Library, id: BundleId, arg: Bundles.BookArg)
    requires lib.Valid() && id in lib.bundles
    modifies lib
    ensures lib.Valid()
    ensures id in lib.bundles
    ensures (lib.books, lib.bundles[id]) == Bundles.RemoveIntended(old(lib.books), old(lib.bundles), id, Bundles.AsList(arg))
    ensures lib.bundles == old(lib.bundles)[id := lib.bundles[id]]
    ensures lib.profiles == old(lib.profiles) && lib.subs == old(lib.subs)
    ensures lib.records == old(lib.records) && lib.loans == old(lib.loans)
  {
    var ids := Bundles.AsList(arg);
    var pks := (set k | k in ids) * lib.bundles[id].members;
    RemoveBooksStatus(lib, id, Some(pks));
    var b := lib.bundles[id];
    lib.bundles := lib.bundles[id := b.(members := b.members - pks)];
  }

  /** `clear_books` as evidently intended: the members are reset while the
      bundle still lists them (a pre-clear handler), then the bundle is
      emptied. */
  method ClearBooksIntended(lib: Store.Library, id: BundleId)
    requires lib.Valid() && id in lib.bundles
    modifies lib
    ensures lib.Valid()
    ensures id in lib.bundles
    ensures (lib.books, lib.bundles[id]) == Bundles.ClearIntended(old(lib.books), old(lib.bundles), id)
    ensures lib.bundles == old(lib.bundles)[id := lib.bundles[id]]
    ensures lib.profiles == old(lib.profiles) && lib.subs == old(lib.subs)
    ensures lib.records == old(lib.records) && lib.loans == old(lib.loans)
  {
    RemoveBooksStatus(lib, id, None);
    Bundles.PreClearReset(old(lib.books), old(lib.bundles), id);
    var b := lib.bundles[id];
    lib.bundles := lib.bundles[id := b.(members := {})];
  }
}
