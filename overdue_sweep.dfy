/** The `check_overdue` management command: every ACTIVE borrow record whose
    due date has strictly passed gives its copy the OVERDUE status, and the
    command reports how many records it went through. The records themselves
    are never changed. */
module OverdueSweep {
  import opened Common
  import Books
  import Records
  import Profiles
  import Lending
  import Store

  /** The filter of the sweep's query: ACTIVE and due strictly before `now`. */
  predicate IsSelected(r: Records.BorrowRecord, now: Instant)
  {
    r.status == Records.Active && r.dueDate < now
  }

  /** The records the query returns, in table order. */
  function Selection(records: seq<Records.BorrowRecord>, now: Instant): (s: seq<Records.BorrowRecord>)
    ensures |s| <= |records|
    ensures forall x :: x in s <==> x in records && IsSelected(x, now)
  {
    if records == [] then []
    else
      var rest := Selection(records[1..], now);
      assert forall x :: x in records <==> x == records[0] || x in records[1..];
      if IsSelected(records[0], now) then [records[0]] + rest else rest
  }

  /** The position of the first selected record that lends a bundle rather
      than a copy: the loop stops there, since such a record has no copy
      whose status it could set. */
  function FirstBundle(sel: seq<Records.BorrowRecord>): (n: nat)
    ensures n <= |sel|
    ensures forall j | 0 <= j < n :: sel[j].item.BookItem?
    ensures n < |sel| ==> sel[n].item.BundleItem?
  {
    if sel == [] then 0
    else if sel[0].item.BundleItem? then 0
    else 1 + FirstBundle(sel[1..])
  }

  /** One step of the loop: the record's copy becomes OVERDUE. */
  function MarkOne(books: map<BookId, Books.Book>, r: Records.BorrowRecord): map<BookId, Books.Book>
  {
    match r.item
    case BookItem(k) => if k in books then books[k := books[k].(status := Books.Overdue)] else books
    case BundleItem(_) => books
  }

  /** The copies after the loop has handled the records of `done`, in order. */
  function Marked(books: map<BookId, Books.Book>, done: seq<Records.BorrowRecord>): (r: map<BookId, Books.Book>)
    ensures r.Keys == books.Keys
  {
    if done == [] then books else MarkOne(Marked(books, done[..|done| - 1]), done[|done| - 1])
  }

  /** Some record of `done` lends copy `k`. */
  predicate Lends(done: seq<Records.BorrowRecord>, k: BookId)
  {
    exists i | 0 <= i < |done| :: done[i].item == Records.BookItem(k)
  }

  /** After the loop, exactly the copies some handled record lends are
      OVERDUE, with nothing else about them changed; every other copy is as
      it was. */
  lemma {:induction false} MarkedCopies(books: map<BookId, Books.Book>, done: seq<Records.BorrowRecord>, k: BookId)
    requires k in books
    ensures Lends(done, k) ==> Marked(books, done)[k] == books[k].(status := Books.Overdue)
    ensures !Lends(done, k) ==> Marked(books, done)[k] == books[k]
  {
    if done != [] {
      var init := done[..|done| - 1];
      var last := done[|done| - 1];
      MarkedCopies(books, init, k);
      if last.item == Records.BookItem(k) {
        assert Lends(done, k);
      } else {
        assert Lends(done, k) <==> Lends(init, k) by {
          if Lends(done, k) {
            var i :| 0 <= i < |done| && done[i].item == Records.BookItem(k);
            assert init[i] == done[i];
          }
          if Lends(init, k) {
            var i :| 0 <= i < |init| && init[i].item == Records.BookItem(k);
            assert done[i] == init[i];
          }
        }
      }
    }
  }

  /** The loop adds the next record to those handled. */
  lemma MarkedStep(books: map<BookId, Books.Book>, sel: seq<Records.BorrowRecord>, i: nat)
    requires i < |sel|
    ensures Marked(books, sel[..i + 1]) == MarkOne(Marked(books, sel[..i]), sel[i])
  {
    assert sel[..i + 1][..i] == sel[..i];
  }

  /** `Command.handle`: go through the selected records in order and make
      each one's copy OVERDUE, counting the records. A selected record that
      lends a bundle stops the command with an error, keeping the copies
      already marked. */
  method Sweep(lib: Store.Library, now: Instant) returns (r: Result<nat>)
    requires lib.Valid()
    modifies lib
    ensures lib.Valid()
    ensures var sel := Selection(old(lib.records), now);
      var n := FirstBundle(sel);
      && lib.books == Marked(old(lib.books), sel[..n])
      && (n == |sel| ==> r == Ok(|sel|))
      && (n < |sel| ==> r == Err(NoBookOnRecord))
    ensures lib.records == old(lib.records) && lib.loans == old(lib.loans)
    ensures lib.bundles == old(lib.bundles) && lib.profiles == old(lib.profiles) && lib.subs == old(lib.subs)
    ensures Lending.OneOpen(old(lib.books), old(lib.records)) ==> Lending.OneOpen(lib.books, lib.records)
  {
    var sel := Selection(lib.records, now);
    ghost var n := FirstBundle(sel);
    var count := 0;
    var i := 0;
    while i < |sel| && sel[i].item.BookItem?
      invariant 0 <= i <= n && count == i
      invariant lib.books == Marked(old(lib.books), sel[..i])
      invariant lib.Valid()
      invariant lib.records == old(lib.records) && lib.loans == old(lib.loans)
      invariant lib.bundles == old(lib.bundles) && lib.profiles == old(lib.profiles) && lib.subs == old(lib.subs)
      decreases |sel| - i
    {
      MarkedStep(old(lib.books), sel, i);
      MarkCopy(lib, sel[i]);
      count := count + 1;
      i := i + 1;
    }
    assert i == n;
    if Lending.OneOpen(old(lib.books), old(lib.records)) {
      MarkedKeepsOneOpen(old(lib.books), old(lib.records), sel[..i]);
    }
    if i < |sel| {
      r := Err(NoBookOnRecord);
    } else {
      r := Ok(count);
    }
  }

  /** Marking copies OVERDUE keeps every lent copy out of NORMAL and leaves
      the records alone, so the invariant of the borrow check survives the
      sweep. */
  lemma MarkedKeepsOneOpen(books: map<BookId, Books.Book>, records: seq<Records.BorrowRecord>, done: seq<Records.BorrowRecord>)
    requires Lending.OneOpen(books, records)
    ensures Lending.OneOpen(Marked(books, done), records)
  {
    var marked := Marked(books, done);
    forall i | 0 <= i < |records| && records[i].status == Records.Active && records[i].item.BookItem? && records[i].item.book in marked
      ensures marked[records[i].item.book].status != Books.Normal
    {
      MarkedCopies(books, done, records[i].item.book);
    }
  }

  /** The loop body: the copy the record lends becomes OVERDUE and is saved. */
  method MarkCopy(lib: Store.Library, rec: Records.BorrowRecord)
    requires lib.Valid() && rec in lib.records && rec.item.BookItem?
    modifies lib
    ensures lib.Valid()
    ensures lib.books == MarkOne(old(lib.books), rec)
    ensures lib.records == old(lib.records) && lib.loans == old(lib.loans)
    ensures lib.bundles == old(lib.bundles) && lib.profiles == old(lib.profiles) && lib.subs == old(lib.subs)
  {
    var k := rec.item.book;
    assert Store.RecordRefsOk(rec, lib.books, lib.bundles, lib.profiles);
    var nbooks := lib.books[k := lib.books[k].(status := Books.Overdue)];
    Store.BookChangeKeepsConsistent(lib.books, nbooks, lib.bundles, lib.profiles, lib.subs, lib.records, lib.loans);
    lib.books := nbooks;
  }

  /** The records are left as they were, so a second sweep at the same
      instant selects the same records and changes no copy further. */
  lemma {:induction false} SweepIdempotent(books: map<BookId, Books.Book>, sel: seq<Records.BorrowRecord>)
    ensures Marked(Marked(books, sel), sel) == Marked(books, sel)
  {
    var once := Marked(books, sel);
    var twice := Marked(once, sel);
    forall k | k in books ensures twice[k] == once[k] {
      MarkedCopies(books, sel, k);
      MarkedCopies(once, sel, k);
    }
  }

  /** A user has overdue items exactly when the sweep selects one of their
      records. */
  lemma SelectionMatchesOverdueItems(records: seq<Records.BorrowRecord>, user: UserId, now: Instant)
    ensures Profiles.HasOverdueItems(records, user, now) <==>
      exists x | x in Selection(records, now) :: x.borrower == user
  {
    if Profiles.HasOverdueItems(records, user, now) {
      var i :| 0 <= i < |records| && Records.IsActiveOf(records[i], user) && records[i].dueDate < now;
      assert records[i] in Selection(records, now);
    }
    if exists x | x in Selection(records, now) :: x.borrower == user {
      var x :| x in Selection(records, now) && x.borrower == user;
      var i :| 0 <= i < |records| && records[i] == x;
      assert Records.IsActiveOf(records[i], user);
    }
  }

  /** `Command.handle` as written: `Book.Status.OVERDUE` is not a declared
      status, so naming it raises at the first selected record, before any
      copy is saved or the count is reported. */
  function SweepAsWritten(books: map<BookId, Books.Book>, sel: seq<Records.BorrowRecord>): (r: (Result<nat>, map<BookId, Books.Book>))
    ensures r.1 == books
    ensures r.0.Ok? <==> sel == []
    ensures r.0.Ok? ==> r.0.value == 0
  {
    if sel == [] then (Ok(0), books) else (Err(UndeclaredStatus), books)
  }

  /** With one overdue copy selected, the sweep as written fails and leaves
      the copy as it was, while the intended sweep makes it OVERDUE. */
  lemma SweepAsWrittenMarksNothing(books: map<BookId, Books.Book>, sel: seq<Records.BorrowRecord>, k: BookId)
    requires k in books && books[k].status != Books.Overdue
    requires sel != [] && sel[0].item == Records.BookItem(k)
    ensures SweepAsWritten(books, sel).0 == Err(UndeclaredStatus)
    ensures SweepAsWritten(books, sel).1[k] == books[k]
    ensures Marked(books, sel[..FirstBundle(sel)])[k].status == Books.Overdue
  {
    var done := sel[..FirstBundle(sel)];
    assert done[0] == sel[0];
    assert Lends(done, k);
    MarkedCopies(books, done, k);
  }
}
