/** The database the lending core reads and writes, as one object whose
    tables the operations update in place. Rows are keyed by their primary
    key; borrow records, loans and subscriptions keep table order, which is
    the order the queries in the source return them in. */
module Store {
  import opened Common
  import Books
  import Bundles
  import Subscriptions
  import Records
  import Profiles
  import Borrowings

  /** A borrow record's foreign keys point at stored rows. */
  predicate RecordRefsOk(r: Records.BorrowRecord, books: map<BookId, Books.Book>, bundles: map<BundleId, Bundles.Bundle>, profiles: map<UserId, Profiles.Profile>)
  {
    && r.borrower in profiles
    && match r.item
       case BookItem(k) => k in books
       case BundleItem(b) => b in bundles
  }

  /** A loan's foreign key points at a stored row. */
  predicate LoanRefsOk(l: Borrowings.Loan, books: map<BookId, Books.Book>, bundles: map<BundleId, Bundles.Bundle>)
  {
    match l.target
    case BookLoan(k) => k in books
    case BundleLoan(b) => b in bundles
  }

  /** Every stored loan has a key, and keys are unique. */
  ghost predicate LoanKeysOk(loans: seq<Borrowings.Loan>)
  {
    && (forall i | 0 <= i < |loans| :: loans[i].pk.Some?)
    && (forall i, j | 0 <= i < |loans| && 0 <= j < |loans| && i != j :: loans[i].pk != loans[j].pk)
  }

  /** The constraints the database schema keeps: unique codes, foreign keys
      that point at stored rows, one profile per user, unique keys, and
      (through `Subscription.save`) no overlapping ACTIVE subscriptions. */
  ghost predicate Consistent(
    books: map<BookId, Books.Book>,
    bundles: map<BundleId, Bundles.Bundle>,
    profiles: map<UserId, Profiles.Profile>,
    subs: seq<Subscriptions.Subscription>,
    records: seq<Records.BorrowRecord>,
    loans: seq<Borrowings.Loan>)
  {
    && Books.UniqueCodes(books)
    && (forall j | j in bundles :: bundles[j].members <= books.Keys)
    && (forall i, j | i in bundles && j in bundles && i != j :: bundles[i].code != bundles[j].code)
    && (forall u | u in profiles :: profiles[u].user == u)
    && (forall i | 0 <= i < |records| :: RecordRefsOk(records[i], books, bundles, profiles))
    && (forall i | 0 <= i < |loans| :: LoanRefsOk(loans[i], books, bundles))
    && LoanKeysOk(loans)
    && Subscriptions.WellFormed(subs) && Subscriptions.Disjoint(subs)
  }

  /** Changing what copies are like, but not which copies there are or their
      codes, keeps the database consistent. */
  lemma BookChangeKeepsConsistent(
    books: map<BookId, Books.Book>,
    nbooks: map<BookId, Books.Book>,
    bundles: map<BundleId, Bundles.Bundle>,
    profiles: map<UserId, Profiles.Profile>,
    subs: seq<Subscriptions.Subscription>,
    records: seq<Records.BorrowRecord>,
    loans: seq<Borrowings.Loan>)
    requires Consistent(books, bundles, profiles, subs, records, loans)
    requires Books.SameCodes(books, nbooks)
    ensures Consistent(nbooks, bundles, profiles, subs, records, loans)
  {
    Books.CodesKept(books, nbooks);
  }

  /** Changing borrow records without changing what they point at keeps the
      database consistent. */
  lemma RecordChangeKeepsConsistent(
    books: map<BookId, Books.Book>,
    bundles: map<BundleId, Bundles.Bundle>,
    profiles: map<UserId, Profiles.Profile>,
    subs: seq<Subscriptions.Subscription>,
    records: seq<Records.BorrowRecord>,
    nrecords: seq<Records.BorrowRecord>,
    loans: seq<Borrowings.Loan>)
    requires Consistent(books, bundles, profiles, subs, records, loans)
    requires forall i | 0 <= i < |nrecords| :: RecordRefsOk(nrecords[i], books, bundles, profiles)
    ensures Consistent(books, bundles, profiles, subs, nrecords, loans)
  {
  }

  /** Writing loan rows that keep keys unique and point at stored rows keeps
      the database consistent. */
  lemma LoanChangeKeepsConsistent(
    books: map<BookId, Books.Book>,
    bundles: map<BundleId, Bundles.Bundle>,
    profiles: map<UserId, Profiles.Profile>,
    subs: seq<Subscriptions.Subscription>,
    records: seq<Records.BorrowRecord>,
    loans: seq<Borrowings.Loan>,
    nloans: seq<Borrowings.Loan>)
    requires Consistent(books, bundles, profiles, subs, records, loans)
    requires LoanKeysOk(nloans)
    requires forall x | x in nloans :: x in loans || LoanRefsOk(x, books, bundles)
    ensures Consistent(books, bundles, profiles, subs, records, nloans)
  {
    forall i | 0 <= i < |nloans| ensures LoanRefsOk(nloans[i], books, bundles) {
      if nloans[i] in loans {
        var j :| 0 <= j < |loans| && loans[j] == nloans[i];
      }
    }
  }

  /** The bundles after a copy's membership rows are deleted with it. */
  function WithoutMember(bundles: map<BundleId, Bundles.Bundle>, k: BookId): (r: map<BundleId, Bundles.Bundle>)
    ensures r.Keys == bundles.Keys
    ensures forall j | j in bundles :: r[j] == bundles[j].(members := bundles[j].members - {k})
  {
    map j | j in bundles :: bundles[j].(members := bundles[j].members - {k})
  }

  /** Deleting a copy that no borrow record and no loan refers to, together
      with its bundle memberships, keeps the database consistent. */
  lemma DeleteKeepsConsistent(
    books: map<BookId, Books.Book>,
    bundles: map<BundleId, Bundles.Bundle>,
    profiles: map<UserId, Profiles.Profile>,
    subs: seq<Subscriptions.Subscription>,
    records: seq<Records.BorrowRecord>,
    loans: seq<Borrowings.Loan>,
    k: BookId)
    requires Consistent(books, bundles, profiles, subs, records, loans)
    requires forall i | 0 <= i < |records| :: records[i].item != Records.BookItem(k)
    requires forall i | 0 <= i < |loans| :: loans[i].target != Borrowings.BookLoan(k)
    ensures Consistent(books - {k}, WithoutMember(bundles, k), profiles, subs, records, loans)
  {
    var nbooks := books - {k};
    var nbundles := WithoutMember(bundles, k);
    assert Books.UniqueCodes(nbooks) by {
      forall i, j | i in nbooks && j in nbooks && i != j
        ensures nbooks[i].nlCode != nbooks[j].nlCode && nbooks[i].isbn != nbooks[j].isbn
      {
        assert nbooks[i] == books[i] && nbooks[j] == books[j];
      }
    }
    forall i | 0 <= i < |records| ensures RecordRefsOk(records[i], nbooks, nbundles, profiles) {
      assert RecordRefsOk(records[i], books, bundles, profiles);
    }
    forall i | 0 <= i < |loans| ensures LoanRefsOk(loans[i], nbooks, nbundles) {
      assert LoanRefsOk(loans[i], books, bundles);
    }
  }

  class Library {
    var books: map<BookId, Books.Book>
    var bundles: map<BundleId, Bundles.Bundle>
    var profiles: map<UserId, Profiles.Profile>
    var subs: seq<Subscriptions.Subscription>
    var records: seq<Records.BorrowRecord>
    var loans: seq<Borrowings.Loan>

    /** The constraints the database schema keeps. */
    ghost predicate Valid()
      reads this
    {
      Consistent(books, bundles, profiles, subs, records, loans)
    }

    /** The empty database. */
    constructor()
      ensures Valid()
      ensures books == map[] && bundles == map[] && profiles == map[]
      ensures subs == [] && records == [] && loans == []
    {
      books := map[];
      bundles := map[];
      profiles := map[];
      subs := [];
      records := [];
      loans := [];
    }

    /** What the borrowing validation reads. */
    function Snapshot(): (s: Borrowings.Snapshot)
      reads this
      ensures s.books == books && s.bundles == bundles && s.subs == subs
      ensures s.profiles == profiles.Keys
    {
      Borrowings.Snapshot(books, bundles, profiles.Keys, subs)
    }
  }
}
