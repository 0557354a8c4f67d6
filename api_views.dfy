/** The request handlers of api/views.py that guard and change lending
    state: deleting, writing off and marking a copy lost, and the borrow and
    return actions. A request field the serializer requires is an `Option`,
    None when the request leaves it out. */
module ApiViews {
  import opened Common
  import Books
  import Records
  import Lending
  import Serializers
  import Store
  import Text

  /** Some borrow record or loan still refers to the copy. */
  predicate Referenced(lib: Store.Library, k: BookId)
    reads lib
  {
    || (exists i | 0 <= i < |lib.records| :: lib.records[i].item == Records.BookItem(k))
    || (exists i | 0 <= i < |lib.loans| :: lib.loans[i].target.BookLoan? && lib.loans[i].target.book == k)
  }

  /** `BookViewSet.destroy`: only a NORMAL copy may be deleted; deleting one
      that a borrow record or loan still refers to is refused by the
      protecting foreign key. A deleted copy leaves every bundle. */
  method Destroy(lib: Store.Library, k: BookId) returns (r: Outcome)
    requires lib.Valid()
    modifies lib
    ensures lib.Valid()
    ensures k !in old(lib.books) ==> r == Fail(BookNotFound)
    ensures k in old(lib.books) && old(lib.books)[k].status != Books.Normal ==> r == Fail(CannotDelete)
    ensures r.Pass? <==> k in old(lib.books) && old(lib.books)[k].status == Books.Normal && !old(Referenced(lib, k))
    ensures r.Fail? ==> r.error in {BookNotFound, CannotDelete, Protected} && lib.books == old(lib.books) && lib.bundles == old(lib.bundles)
    ensures r.Pass? ==> lib.books == old(lib.books) - {k} && lib.bundles == Store.WithoutMember(old(lib.bundles), k)
    ensures lib.profiles == old(lib.profiles) && lib.subs == old(lib.subs)
    ensures lib.records == old(lib.records) && lib.loans == old(lib.loans)
  {
    if k !in lib.books {
      return Fail(BookNotFound);
    }
    if lib.books[k].status != Books.Normal {
      return Fail(CannotDelete);
    }
    if Referenced(lib, k) {
      return Fail(Protected);
    }
    Store.DeleteKeepsConsistent(lib.books, lib.bundles, lib.profiles, lib.subs, lib.records, lib.loans, k);
    lib.books := lib.books - {k};
    lib.bundles := Store.WithoutMember(lib.bundles, k);
    r := Pass;
  }

  /** `BookViewSet.write_off`: NORMAL becomes WRITTEN_OFF; any other status
      is refused and nothing changes. */
  method WriteOff(lib: Store.Library, k: BookId) returns (r: Outcome)
    requires lib.Valid()
    modifies lib
    ensures lib.Valid()
    ensures r.Pass? <==> k in old(lib.books) && old(lib.books)[k].status == Books.Normal
    ensures k !in old(lib.books) ==> r == Fail(BookNotFound)
    ensures k in old(lib.books) && old(lib.books)[k].status != Books.Normal ==> r == Fail(CannotWriteOff)
    ensures r.Pass? ==> lib.books == old(lib.books)[k := old(lib.books)[k].(status := Books.WrittenOff)]
    ensures r.Fail? ==> lib.books == old(lib.books)
    ensures lib.bundles == old(lib.bundles) && lib.profiles == old(lib.profiles) && lib.subs == old(lib.subs)
    ensures lib.records == old(lib.records) && lib.loans == old(lib.loans)
  {
    if k !in lib.books {
      return Fail(BookNotFound);
    }
    if lib.books[k].status != Books.Normal {
      return Fail(CannotWriteOff);
    }
    var nbooks := lib.books[k := lib.books[k].(status := Books.WrittenOff)];
    Store.BookChangeKeepsConsistent(lib.books, nbooks, lib.bundles, lib.profiles, lib.subs, lib.records, lib.loans);
    lib.books := nbooks;
    r := Pass;
  }

  /** `BookViewSet.mark_lost`: allowed from BORROWED or NORMAL only; the
      copy's first ACTIVE record, if any, becomes LOST, then the copy does. */
  method MarkLost(lib: Store.Library, k: BookId) returns (r: Outcome)
    requires lib.Valid()
    modifies lib
    ensures lib.Valid()
    ensures r.Pass? <==> k in old(lib.books) && old(lib.books)[k].status in {Books.Borrowed, Books.Normal}
    ensures k !in old(lib.books) ==> r == Fail(BookNotFound)
    ensures r.Fail? && k in old(lib.books) ==> r == Fail(CannotMarkLost)
    ensures r.Pass? ==> (lib.books, lib.records) == Lending.MarkLostState(old(lib.books), old(lib.records), k)
    ensures r.Fail? ==> lib.books == old(lib.books) && lib.records == old(lib.records)
    ensures lib.bundles == old(lib.bundles) && lib.profiles == old(lib.profiles) && lib.subs == old(lib.subs)
    ensures lib.loans == old(lib.loans)
    ensures Lending.OneOpen(old(lib.books), old(lib.records)) ==> Lending.OneOpen(lib.books, lib.records)
  {
    if k !in lib.books {
      return Fail(BookNotFound);
    }
    if lib.books[k].status !in {Books.Borrowed, Books.Normal} {
      return Fail(CannotMarkLost);
    }
    var active := Records.FirstActiveFor(lib.records, k);
    if active.Some? {
      var i := active.value;
      var nrecords := lib.records[i := lib.records[i].(status := Records.Lost)];
      assert forall j | 0 <= j < |nrecords| :: nrecords[j].item == lib.records[j].item && nrecords[j].borrower == lib.records[j].borrower;
      Store.RecordChangeKeepsConsistent(lib.books, lib.bundles, lib.profiles, lib.subs, lib.records, nrecords, lib.loans);
      lib.records := nrecords;
    }
    var nbooks := lib.books[k := lib.books[k].(status := Books.Lost)];
    Store.BookChangeKeepsConsistent(lib.books, nbooks, lib.bundles, lib.profiles, lib.subs, lib.records, lib.loans);
    lib.books := nbooks;
    r := Pass;
    if Lending.OneOpen(old(lib.books), old(lib.records)) {
      Lending.MarkLostKeepsOneOpen(old(lib.books), old(lib.records), k);
    }
  }

  /** `BorrowingViewSet.create_borrow`: both ids are required; the notes
      reach `Lend` as the serializer's character field cleans them, with
      surrounding whitespace trimmed. */
  method CreateBorrow(lib: Store.Library, bookId: Option<BookId>, userId: Option<UserId>, notes: string, t1: Instant, t2: Instant)
    returns (r: Result<Records.BorrowRecord>)
    requires lib.Valid()
    modifies lib
    ensures lib.Valid()
    ensures bookId.None? || userId.None? ==> r == Err(MissingField)
    ensures bookId.Some? && userId.Some? ==>
      var checked := Serializers.ValidateBorrow(old(lib.books), old(lib.profiles), old(lib.records), bookId.value, userId.value);
      && (checked.Fail? ==> r == Err(checked.error))
      && (checked.Pass? ==>
            && r == Ok(Records.NewRecord(bookId.value, userId.value, Text.Strip(notes), t1, t2))
            && (lib.books, lib.records) == Lending.BorrowState(old(lib.books), old(lib.records), bookId.value, userId.value, Text.Strip(notes), t1, t2))
    ensures r.Err? ==> lib.books == old(lib.books) && lib.records == old(lib.records)
    ensures lib.bundles == old(lib.bundles) && lib.profiles == old(lib.profiles) && lib.subs == old(lib.subs)
    ensures lib.loans == old(lib.loans)
    ensures Lending.OneOpen(old(lib.books), old(lib.records)) ==> Lending.OneOpen(lib.books, lib.records)
  {
    if bookId.None? || userId.None? {
      return Err(MissingField);
    }
    r := Lend(lib, bookId.value, userId.value, Text.Strip(notes), t1, t2);
  }

  /** What both borrow handlers do once both ids are given: the copy, then
      the profile, must exist, the copy must be NORMAL and the borrower below
      their limit; then an ACTIVE record is created, due 30 days after the
      first clock reading `t1` and borrowed at the second `t2`, and the copy
      becomes BORROWED. */
  method Lend(lib: Store.Library, k: BookId, u: UserId, notes: string, t1: Instant, t2: Instant)
    returns (r: Result<Records.BorrowRecord>)
    requires lib.Valid()
    modifies lib
    ensures lib.Valid()
    ensures var checked := Serializers.ValidateBorrow(old(lib.books), old(lib.profiles), old(lib.records), k, u);
      && (checked.Fail? ==> r == Err(checked.error) && lib.books == old(lib.books) && lib.records == old(lib.records))
      && (checked.Pass? ==>
            && r == Ok(Records.NewRecord(k, u, notes, t1, t2))
            && (lib.books, lib.records) == Lending.BorrowState(old(lib.books), old(lib.records), k, u, notes, t1, t2))
    ensures lib.bundles == old(lib.bundles) && lib.profiles == old(lib.profiles) && lib.subs == old(lib.subs)
    ensures lib.loans == old(lib.loans)
    ensures Lending.OneOpen(old(lib.books), old(lib.records)) ==> Lending.OneOpen(lib.books, lib.records)
  {
    var checked := Serializers.ValidateBorrow(lib.books, lib.profiles, lib.records, k, u);
    if checked.Fail? {
      return Err(checked.error);
    }
    var due := t1 + LoanPeriod;
    var rec := Records.BorrowRecord(Records.BookItem(k), u, Records.Active, t2, due, None, notes);
    var nrecords := lib.records + [rec];
    Store.RecordChangeKeepsConsistent(lib.books, lib.bundles, lib.profiles, lib.subs, lib.records, nrecords, lib.loans);
    lib.records := nrecords;
    var nbooks := lib.books[k := lib.books[k].(status := Books.Borrowed)];
    Store.BookChangeKeepsConsistent(lib.books, nbooks, lib.bundles, lib.profiles, lib.subs, lib.records, lib.loans);
    lib.books := nbooks;
    r := Ok(rec);
    if Lending.OneOpen(old(lib.books), old(lib.records)) {
      Lending.BorrowKeepsOneOpen(old(lib.books), old(lib.records), k, u, notes, t1, t2);
    }
  }

  /** `BorrowingViewSet.return_book`: the id is required and the copy must
      exist and have an ACTIVE record; its first ACTIVE record is closed at
      `now` with the notes, trimmed by the serializer's character field,
      appended, and the copy becomes NORMAL. */
  method ReturnBook(lib: Store.Library, bookId: Option<BookId>, notes: string, now: Instant)
    returns (r: Result<Records.BorrowRecord>)
    requires lib.Valid()
    modifies lib
    ensures lib.Valid()
    ensures bookId.None? ==> r == Err(MissingField)
    ensures bookId.Some? && bookId.value !in old(lib.books) ==> r == Err(BookNotFound)
    ensures bookId.Some? && bookId.value in old(lib.books) ==>
      match Records.FirstActiveFor(old(lib.records), bookId.value)
      case None => r == Err(NoActiveRecord)
      case Some(i) =>
        && r == Ok(Records.ReturnedRecord(old(lib.records)[i], now, Text.Strip(notes)))
        && (lib.books, lib.records) == Lending.ReturnState(old(lib.books), old(lib.records), bookId.value, Text.Strip(notes), now)
    ensures r.Err? ==> lib.books == old(lib.books) && lib.records == old(lib.records)
    ensures lib.bundles == old(lib.bundles) && lib.profiles == old(lib.profiles) && lib.subs == old(lib.subs)
    ensures lib.loans == old(lib.loans)
    ensures Lending.OneOpen(old(lib.books), old(lib.records)) ==> Lending.OneOpen(lib.books, lib.records)
  {
    if bookId.None? {
      return Err(MissingField);
    }
    var k := bookId.value;
    if k !in lib.books {
      return Err(BookNotFound);
    }
    r := Close(lib, k, Text.Strip(notes), now);
  }

  /** What both return handlers do once the copy is found: close its first
      ACTIVE record and make the copy NORMAL, or refuse when it has none. */
  method Close(lib: Store.Library, k: BookId, notes: string, now: Instant) returns (r: Result<Records.BorrowRecord>)
    requires lib.Valid() && k in lib.books
    modifies lib
    ensures lib.Valid()
    ensures match Records.FirstActiveFor(old(lib.records), k)
      case None => r == Err(NoActiveRecord) && lib.books == old(lib.books) && lib.records == old(lib.records)
      case Some(i) =>
        && r == Ok(Records.ReturnedRecord(old(lib.records)[i], now, notes))
        && (lib.books, lib.records) == Lending.ReturnState(old(lib.books), old(lib.records), k, notes, now)
    ensures lib.bundles == old(lib.bundles) && lib.profiles == old(lib.profiles) && lib.subs == old(lib.subs)
    ensures lib.loans == old(lib.loans)
    ensures Lending.OneOpen(old(lib.books), old(lib.records)) ==> Lending.OneOpen(lib.books, lib.records)
  {
    var active := Records.FirstActiveFor(lib.records, k);
    if active.None? {
      return Err(NoActiveRecord);
    }
    var i := active.value;
    var rec := lib.records[i];
    rec := rec.(status := Records.Returned);
    rec := rec.(returnedDate := Some(now));
    rec := rec.(notes := Records.ReturnNotes(rec.notes, notes));
    var nrecords := lib.records[i := rec];
    assert forall j | 0 <= j < |nrecords| :: nrecords[j].item == lib.records[j].item && nrecords[j].borrower == lib.records[j].borrower;
    Store.RecordChangeKeepsConsistent(lib.books, lib.bundles, lib.profiles, lib.subs, lib.records, nrecords, lib.loans);
    lib.records := nrecords;
    var nbooks := lib.books[k := lib.books[k].(status := Books.Normal)];
    Store.BookChangeKeepsConsistent(lib.books, nbooks, lib.bundles, lib.profiles, lib.subs, lib.records, lib.loans);
    lib.books := nbooks;
    r := Ok(rec);
    if Lending.OneOpen(old(lib.books), old(lib.records)) {
      Lending.ReturnKeepsOneOpen(old(lib.books), old(lib.records), k, notes, now);
    }
  }
}
