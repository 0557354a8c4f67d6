/** The staff-only borrow and return endpoints of circulation/views.py. They
    read the ids from a JSON body and refuse a missing or falsy one; an id is
    `None` when the body leaves it out, and the id 0 is falsy. Past that guard
    they do what the API's borrow and return actions do, except that the
    notes are taken from the body as sent, untrimmed. */
module CirculationViews {
  import opened Common
  import Records
  import Lending
  import Serializers
  import Store
  import ApiViews

  /** Python's truth value of an id read from the body. */
  predicate Truthy(id: Option<int>)
  {
    id.Some? && id.value != 0
  }

  /** `create_borrow`: a missing or zero id is refused before any lookup;
      then the copy and the profile are looked up (404 when absent), the copy
      must be NORMAL and the borrower below their limit. */
  method CreateBorrow(lib: Store.Library, bookId: Option<BookId>, userId: Option<UserId>, notes: string, t1: Instant, t2: Instant)
    returns (r: Result<Records.BorrowRecord>)
    requires lib.Valid()
    modifies lib
    ensures lib.Valid()
    ensures !Truthy(bookId) || !Truthy(userId) ==> r == Err(MissingField)
    ensures Truthy(bookId) && Truthy(userId) ==>
      var checked := Serializers.ValidateBorrow(old(lib.books), old(lib.profiles), old(lib.records), bookId.value, userId.value);
      && (checked.Fail? ==> r == Err(checked.error))
      && (checked.Pass? ==>
            && r == Ok(Records.NewRecord(bookId.value, userId.value, notes, t1, t2))
            && (lib.books, lib.records) == Lending.BorrowState(old(lib.books), old(lib.records), bookId.value, userId.value, notes, t1, t2))
    ensures r.Err? ==> lib.books == old(lib.books) && lib.records == old(lib.records)
    ensures lib.bundles == old(lib.bundles) && lib.profiles == old(lib.profiles) && lib.subs == old(lib.subs)
    ensures lib.loans == old(lib.loans)
    ensures Lending.OneOpen(old(lib.books), old(lib.records)) ==> Lending.OneOpen(lib.books, lib.records)
  {
    if !Truthy(bookId) || !Truthy(userId) {
      return Err(MissingField);
    }
    r := ApiViews.Lend(lib, bookId.value, userId.value, notes, t1, t2);
  }

  /** `return_book`: a missing or zero id is refused; the copy must exist and
      have an ACTIVE record, whose first one is closed at `now`. */
  method ReturnBook(lib: Store.Library, bookId: Option<BookId>, notes: string, now: Instant)
    returns (r: Result<Records.BorrowRecord>)
    requires lib.Valid()
    modifies lib
    ensures lib.Valid()
    ensures !Truthy(bookId) ==> r == Err(MissingField)
    ensures Truthy(bookId) && bookId.value !in old(lib.books) ==> r == Err(BookNotFound)
    ensures Truthy(bookId) && bookId.value in old(lib.books) ==>
      match Records.FirstActiveFor(old(lib.records), bookId.value)
      case None => r == Err(NoActiveRecord)
      case Some(i) =>
        && r == Ok(Records.ReturnedRecord(old(lib.records)[i], now, notes))
        && (lib.books, lib.records) == Lending.ReturnState(old(lib.books), old(lib.records), bookId.value, notes, now)
    ensures r.Err? ==> lib.books == old(lib.books) && lib.records == old(lib.records)
    ensures lib.bundles == old(lib.bundles) && lib.profiles == old(lib.profiles) && lib.subs == old(lib.subs)
    ensures lib.loans == old(lib.loans)
    ensures Lending.OneOpen(old(lib.books), old(lib.records)) ==> Lending.OneOpen(lib.books, lib.records)
  {
    if !Truthy(bookId) {
      return Err(MissingField);
    }
    var k := bookId.value;
    if k !in lib.books {
      return Err(BookNotFound);
    }
    r := ApiViews.Close(lib, k, notes, now);
  }
}
