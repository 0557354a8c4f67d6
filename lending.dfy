/** The state changes the borrow, return and mark-lost handlers make, in
    both api/views.py and circulation/views.py, as functions of the state
    before the request, with what they keep and what they change. */
module Lending {
  import opened Common
  import Books
  import Bundles
  import Records
  import Profiles
  import Serializers
  import Text

  /** After a borrow: the copy is BORROWED and one ACTIVE record is appended,
      due 30 days after the first clock reading and borrowed at the second. */
  function BorrowState(books: map<BookId, Books.Book>, records: seq<Records.BorrowRecord>,
                       book: BookId, user: UserId, notes: string, t1: Instant, t2: Instant): (r: (map<BookId, Books.Book>, seq<Records.BorrowRecord>))
    requires book in books
    ensures r.0.Keys == books.Keys && r.0[book].status == Books.Borrowed
    ensures |r.1| == |records| + 1 && r.1[..|records|] == records
    ensures Records.IsActiveFor(r.1[|records|], book) && Records.IsActiveOf(r.1[|records|], user)
  {
    (books[book := books[book].(status := Books.Borrowed)], records + [Records.NewRecord(book, user, notes, t1, t2)])
  }

  /** A borrow appends exactly one record, the new ACTIVE record for the
      borrower, keeps every earlier record, changes no other copy, and leaves
      the copy with an ACTIVE record. */
  lemma BorrowAddsOneActive(books: map<BookId, Books.Book>, records: seq<Records.BorrowRecord>,
                            book: BookId, user: UserId, notes: string, t1: Instant, t2: Instant)
    requires book in books
    ensures var (nbooks, nrecords) := BorrowState(books, records, book, user, notes, t1, t2);
      && nbooks.Keys == books.Keys && nbooks[book].status == Books.Borrowed
      && (forall k | k in books && k != book :: nbooks[k] == books[k])
      && |nrecords| == |records| + 1 && nrecords[..|records|] == records
      && nrecords[|records|] == Records.NewRecord(book, user, notes, t1, t2)
      && Records.ActiveCount(nrecords, user) == Records.ActiveCount(records, user) + 1
      && Records.FirstActiveFor(nrecords, book).Some?
  {
    var rec := Records.NewRecord(book, user, notes, t1, t2);
    Records.ActiveCountAppend(records, rec, user);
    var nrecords := records + [rec];
    assert Records.IsActiveFor(nrecords[|records|], book);
  }

  /** After a return: the copy's first ACTIVE record is RETURNED at `now`
      with the notes appended, and the copy is NORMAL. */
  function ReturnState(books: map<BookId, Books.Book>, records: seq<Records.BorrowRecord>,
                       book: BookId, notes: string, now: Instant): (r: (map<BookId, Books.Book>, seq<Records.BorrowRecord>))
    requires book in books && Records.FirstActiveFor(records, book).Some?
    ensures r.0.Keys == books.Keys && r.0[book].status == Books.Normal
    ensures |r.1| == |records|
    ensures !Records.IsActiveFor(r.1[Records.FirstActiveFor(records, book).value], book)
  {
    var i := Records.FirstActiveFor(records, book).value;
    (books[book := books[book].(status := Books.Normal)], records[i := Records.ReturnedRecord(records[i], now, notes)])
  }

  /** A return closes exactly the copy's first ACTIVE record: every other
      record is kept, the borrower has one ACTIVE record fewer, the earlier
      notes survive at the front of the new ones, and no other copy changes. */
  lemma ReturnClosesFirst(books: map<BookId, Books.Book>, records: seq<Records.BorrowRecord>,
                          book: BookId, notes: string, now: Instant)
    requires book in books && Records.FirstActiveFor(records, book).Some?
    ensures var i := Records.FirstActiveFor(records, book).value;
      var (nbooks, nrecords) := ReturnState(books, records, book, notes, now);
      && |nrecords| == |records|
      && (forall j | 0 <= j < |records| && j != i :: nrecords[j] == records[j])
      && nrecords[i].status == Records.Returned && nrecords[i].returnedDate == Some(now)
      && Records.ActiveCount(nrecords, records[i].borrower) == Records.ActiveCount(records, records[i].borrower) - 1
      && nbooks.Keys == books.Keys && nbooks[book].status == Books.Normal
      && (forall k | k in books && k != book :: nbooks[k] == books[k])
      && (Text.HasNonSpace(records[i].notes) ==>
            nrecords[i].notes == Text.LStrip(records[i].notes) + Records.ReturnTag + Text.RStrip(" " + notes))
  {
    var i := Records.FirstActiveFor(records, book).value;
    var closed := Records.ReturnedRecord(records[i], now, notes);
    var (nbooks, nrecords) := ReturnState(books, records, book, notes, now);
    assert nrecords == records[i := closed];
    assert nbooks == books[book := books[book].(status := Books.Normal)];
    Records.ActiveCountClose(records, i, closed, records[i].borrower);
    Records.ReturnedNotes(records[i], now, notes);
  }

  /** The return makes the copy NORMAL even when a bundle lists it, so every
      bundle that lists it stops being available. */
  lemma ReturnBreaksBundles(books: map<BookId, Books.Book>, records: seq<Records.BorrowRecord>,
                            book: BookId, notes: string, now: Instant, b: Bundles.Bundle)
    requires book in books && Records.FirstActiveFor(records, book).Some?
    requires book in b.members
    ensures !Bundles.IsAvailable(ReturnState(books, records, book, notes, now).0, b)
  {
    var nbooks := ReturnState(books, records, book, notes, now).0;
    var r := Bundles.InBundleMembers(nbooks, b.members);
    assert book !in r;
    Bundles.SubsetSize(r, b.members);
  }

  /** After marking a copy lost: its first ACTIVE record, if any, is LOST,
      and the copy is LOST. */
  function MarkLostState(books: map<BookId, Books.Book>, records: seq<Records.BorrowRecord>, book: BookId): (r: (map<BookId, Books.Book>, seq<Records.BorrowRecord>))
    requires book in books
    ensures r.0.Keys == books.Keys && r.0[book].status == Books.Lost
    ensures |r.1| == |records|
  {
    var nrecords := match Records.FirstActiveFor(records, book)
      case Some(i) => records[i := records[i].(status := Records.Lost)]
      case None => records;
    (books[book := books[book].(status := Books.Lost)], nrecords)
  }

  /** Marking lost touches at most one record, the copy's first ACTIVE one,
      and changes nothing about it but its status; with no ACTIVE record the
      records stay as they were. */
  lemma MarkLostTouchesOne(books: map<BookId, Books.Book>, records: seq<Records.BorrowRecord>, book: BookId)
    requires book in books
    ensures var (nbooks, nrecords) := MarkLostState(books, records, book);
      && |nrecords| == |records|
      && nbooks[book].status == Books.Lost
      && (Records.FirstActiveFor(records, book).None? ==> nrecords == records)
      && (Records.FirstActiveFor(records, book).Some? ==>
            var i := Records.FirstActiveFor(records, book).value;
            && nrecords[i] == records[i].(status := Records.Lost)
            && forall j | 0 <= j < |records| && j != i :: nrecords[j] == records[j])
      && (forall u :: Records.ActiveCount(nrecords, u) <=
            Records.ActiveCount(records, u))
  {
    match Records.FirstActiveFor(records, book)
    case None =>
    case Some(i) =>
      forall u ensures Records.ActiveCount(MarkLostState(books, records, book).1, u) <= Records.ActiveCount(records, u) {
        Records.ActiveCountClose(records, i, records[i].(status := Records.Lost), u);
      }
  }

  /** `mark_lost` as written: the first ACTIVE record is saved as LOST, and
      then naming `Book.Status.LOST`, which the status choices do not
      declare, raises, so the copy keeps the status it had. */
  function MarkLostAsWritten(books: map<BookId, Books.Book>, records: seq<Records.BorrowRecord>, book: BookId): (r: (map<BookId, Books.Book>, seq<Records.BorrowRecord>))
    requires book in books
    ensures r.0 == books && r.1 == MarkLostState(books, records, book).1
  {
    (books, MarkLostState(books, records, book).1)
  }

  /** The concrete case: a BORROWED copy whose one record is ACTIVE. As
      written, the copy stays BORROWED but has no ACTIVE record left, so both
      return handlers refuse it for good; marked lost as intended, the copy
      is LOST. */
  lemma MarkLostStrandsCopy(x: Books.Book, rec: Records.BorrowRecord)
    requires x.status == Books.Borrowed && rec.item == Records.BookItem(1) && rec.status == Records.Active
    ensures var (nbooks, nrecords) := MarkLostAsWritten(map[1 := x], [rec], 1);
      && nbooks[1].status == Books.Borrowed
      && nrecords == [rec.(status := Records.Lost)]
      && Records.FirstActiveFor(nrecords, 1).None?
    ensures MarkLostState(map[1 := x], [rec], 1).0[1].status == Books.Lost
  {
    assert Records.IsActiveFor([rec][0], 1);
    var nrecords := [rec.(status := Records.Lost)];
    assert !Records.IsActiveFor(nrecords[0], 1);
  }

  /** The invariant the borrow check relies on: a copy with an ACTIVE record
      is never NORMAL, and no copy has two ACTIVE records. Since a borrow
      requires a NORMAL copy, it then never lends a copy that is already
      lent. */
  ghost predicate OneOpen(books: map<BookId, Books.Book>, records: seq<Records.BorrowRecord>)
  {
    && (forall i | 0 <= i < |records| && records[i].status == Records.Active && records[i].item.BookItem? && records[i].item.book in books ::
          books[records[i].item.book].status != Books.Normal)
    && (forall i, j | 0 <= i < j < |records| && records[i].status == Records.Active && records[j].status == Records.Active && records[i].item.BookItem? ::
          records[i].item != records[j].item)
  }

  /** A borrow of a NORMAL copy keeps the invariant: the copy had no ACTIVE
      record, gets exactly one, and is BORROWED. */
  lemma BorrowKeepsOneOpen(books: map<BookId, Books.Book>, records: seq<Records.BorrowRecord>,
                           book: BookId, user: UserId, notes: string, t1: Instant, t2: Instant)
    requires book in books && books[book].status == Books.Normal
    requires OneOpen(books, records)
    ensures var (nbooks, nrecords) := BorrowState(books, records, book, user, notes, t1, t2);
      OneOpen(nbooks, nrecords)
  {
    var (nbooks, nrecords) := BorrowState(books, records, book, user, notes, t1, t2);
    forall i | 0 <= i < |records| && records[i].status == Records.Active && records[i].item.BookItem?
      ensures records[i].item.book != book
    {
      assert records[i].item.book in books ==> books[records[i].item.book].status != Books.Normal;
    }
    forall i | 0 <= i < |nrecords| && nrecords[i].status == Records.Active && nrecords[i].item.BookItem? && nrecords[i].item.book in nbooks
      ensures nbooks[nrecords[i].item.book].status != Books.Normal
    {
      if i < |records| {
        assert nrecords[i] == records[i];
      }
    }
    forall i, j | 0 <= i < j < |nrecords| && nrecords[i].status == Records.Active && nrecords[j].status == Records.Active && nrecords[i].item.BookItem?
      ensures nrecords[i].item != nrecords[j].item
    {
      assert nrecords[i] == records[i];
      if j < |records| {
        assert nrecords[j] == records[j];
      }
    }
  }

  /** A return keeps the invariant: the closed record was the copy's only
      ACTIVE one, so the copy may become NORMAL. */
  lemma ReturnKeepsOneOpen(books: map<BookId, Books.Book>, records: seq<Records.BorrowRecord>,
                           book: BookId, notes: string, now: Instant)
    requires book in books && Records.FirstActiveFor(records, book).Some?
    requires OneOpen(books, records)
    ensures var (nbooks, nrecords) := ReturnState(books, records, book, notes, now);
      OneOpen(nbooks, nrecords)
  {
    var i := Records.FirstActiveFor(records, book).value;
    var (nbooks, nrecords) := ReturnState(books, records, book, notes, now);
    assert nrecords == records[i := Records.ReturnedRecord(records[i], now, notes)];
    forall j | 0 <= j < |nrecords| && nrecords[j].status == Records.Active && nrecords[j].item.BookItem? && nrecords[j].item.book in nbooks
      ensures nbooks[nrecords[j].item.book].status != Books.Normal
    {
      assert j != i && nrecords[j] == records[j];
      assert j < i ==> records[j].item != records[i].item;
      assert i < j ==> records[i].item != records[j].item;
    }
  }

  /** Marking a copy lost keeps the invariant: it only takes records out of
      ACTIVE and makes the copy LOST. */
  lemma MarkLostKeepsOneOpen(books: map<BookId, Books.Book>, records: seq<Records.BorrowRecord>, book: BookId)
    requires book in books
    requires OneOpen(books, records)
    ensures var (nbooks, nrecords) := MarkLostState(books, records, book);
      OneOpen(nbooks, nrecords)
  {
    var (nbooks, nrecords) := MarkLostState(books, records, book);
    MarkLostTouchesOne(books, records, book);
    assert forall j | 0 <= j < |records| && nrecords[j].status == Records.Active :: nrecords[j] == records[j];
  }

  /** The stray removal of `remove_books` breaks the invariant: copy 1 is
      BORROWED under an ACTIVE record and no bundle lists it. Offered for
      removal from bundle 1 it becomes NORMAL, the borrow check passes again
      for another borrower, and the borrow leaves copy 1 with two ACTIVE
      records. */
  lemma StrayRemovalReopensCopy(x: Books.Book, rec: Records.BorrowRecord, p: Profiles.Profile)
    requires x.status == Books.Borrowed && rec.item == Records.BookItem(1) && rec.status == Records.Active
    requires rec.borrower != 2 && p.borrowLimit > 0
    ensures var books := map[1 := x];
      var bundles := map[1 := Bundles.Bundle("A1", "", Bundles.Normal, {})];
      var freed := Bundles.RemoveResult(books, bundles, 1, [1]).0;
      && OneOpen(books, [rec])
      && freed[1].status == Books.Normal && !OneOpen(freed, [rec])
      && Serializers.ValidateBorrow(freed, map[2 := p], [rec], 1, 2).Pass?
      && var after := BorrowState(freed, [rec], 1, 2, "", 0, 0).1;
         Records.IsActiveFor(after[0], 1) && Records.IsActiveFor(after[1], 1)
  {
    var bundles := map[1 := Bundles.Bundle("A1", "", Bundles.Normal, {})];
    var s := set j | j in bundles && 1 in bundles[j].members;
    assert s == {};
    assert Records.ActiveCount([rec], 2) == 0;
  }

  /** The intended removal breaks it too: a copy that joined the bundle while
      lent (an OVERDUE copy may join) and still has its ACTIVE record becomes
      NORMAL when the bundle lets it go. */
  lemma IntendedRemovalReopensCopy(x: Books.Book, rec: Records.BorrowRecord)
    requires x.status != Books.Normal && rec.item == Records.BookItem(1) && rec.status == Records.Active
    ensures var books := map[1 := x];
      var bundles := map[1 := Bundles.Bundle("A1", "", Bundles.Normal, {1})];
      var freed := Bundles.RemoveIntended(books, bundles, 1, [1]).0;
      && OneOpen(books, [rec])
      && freed[1].status == Books.Normal && !OneOpen(freed, [rec])
  {
    var bundles := map[1 := Bundles.Bundle("A1", "", Bundles.Normal, {1})];
    var s := set j | j in bundles && 1 in bundles[j].members;
    assert s == {1};
    var freed := Bundles.RemoveIntended(map[1 := x], bundles, 1, [1]).0;
    assert freed[1].status == Books.Normal;
    assert Records.IsActiveFor([rec][0], 1);
  }
}
