/** Book and bundle borrowings (circulation/models.py): the status a save
    settles on, the validation run before every save, whether a borrowing is
    active and how many days it is overdue. */
module Borrowings {
  import opened Common
  import Books
  import Bundles
  import Subscriptions
  import Profiles

  /** BaseBorrowing.Status: PEN, BOR, RET, OVD, CAN. */
  datatype LoanStatus = Pending | Borrowed | Returned | Overdue | Cancelled

  /** BookBorrowing and BundleBorrowing share every field but what they lend. */
  datatype Target = BookLoan(book: BookId) | BundleLoan(bundle: BundleId)

  /** One borrowing; `pk` is None until it is first stored. */
  datatype Loan = Loan(
    pk: Option<nat>,
    target: Target,
    user: UserId,
    borrowDate: Instant,
    dueDate: Instant,
    returnDate: Option<Instant>,
    status: LoanStatus,
    notes: string)

  /** `BaseBorrowing.clean`: a return date before the borrow date is refused. */
  function CleanBase(l: Loan): (r: Outcome)
    ensures r.Fail? ==> r.error == ReturnBeforeBorrow
    ensures r.Pass? <==> l.returnDate.None? || l.borrowDate <= l.returnDate.value
  {
    if l.returnDate.Some? && l.returnDate.value < l.borrowDate then Fail(ReturnBeforeBorrow) else Pass
  }

  /** The status `save` settles on before validating: any return date means
      RETURNED; otherwise a BORROWED loan strictly past its due date becomes
      OVERDUE; every other status stays. */
  function SaveStatus(l: Loan, now: Instant): (s: LoanStatus)
    ensures l.returnDate.Some? ==> s == Returned
    ensures l.returnDate.None? && l.status != Borrowed ==> s == l.status
  {
    if l.returnDate.Some? then Returned
    else if l.status == Borrowed && now > l.dueDate then Overdue
    else l.status
  }

  /** `is_active`: PENDING, BORROWED or OVERDUE. */
  predicate IsActive(l: Loan)
    ensures IsActive(l) <==> l.status != Returned && l.status != Cancelled
  {
    l.status == Pending || l.status == Borrowed || l.status == Overdue
  }

  /** Saving twice at the same instant settles on the same status as saving
      once; the status a save settles on is active exactly when there is no
      return date and the loan was active before; and a BORROWED loan turns
      OVERDUE exactly when now is strictly past its due date. */
  lemma SaveStatusSettles(l: Loan, now: Instant)
    ensures SaveStatus(l.(status := SaveStatus(l, now)), now) == SaveStatus(l, now)
    ensures IsActive(l.(status := SaveStatus(l, now))) <==> l.returnDate.None? && IsActive(l)
    ensures l.returnDate.None? && l.status == Borrowed ==>
      (SaveStatus(l, now) == Overdue <==> now > l.dueDate)
  {
  }

  /** `days_overdue`: 0 when inactive or not past due; otherwise the whole
      days elapsed since the due date. */
  function DaysOverdue(l: Loan, now: Instant): (d: nat)
    ensures !IsActive(l) || now <= l.dueDate ==> d == 0
    ensures IsActive(l) && now > l.dueDate ==>
      d * MicrosPerDay <= now - l.dueDate < (d + 1) * MicrosPerDay
  {
    if !IsActive(l) || now <= l.dueDate then 0 else (now - l.dueDate) / MicrosPerDay
  }

  /** Days overdue never decrease while time passes. */
  lemma DaysOverdueMonotone(l: Loan, now: Instant, later: Instant)
    requires now <= later
    ensures DaysOverdue(l, now) <= DaysOverdue(l, later)
  {
    if IsActive(l) && now > l.dueDate {
      var d := DaysOverdue(l, now);
      var e := DaysOverdue(l, later);
      assert d * MicrosPerDay < (e + 1) * MicrosPerDay;
    }
  }

  /** Loans the limit checks count: the user's PENDING or BORROWED loans of
      one kind. OVERDUE loans, although active, are not counted. */
  predicate CountsTowardLimit(l: Loan, user: UserId, books: bool)
  {
    l.user == user && (l.status == Pending || l.status == Borrowed) && l.target.BookLoan? == books
  }

  function CountOpen(loans: seq<Loan>, user: UserId, books: bool): (n: nat)
    ensures n <= |loans|
    ensures n == 0 <==> forall i | 0 <= i < |loans| :: !CountsTowardLimit(loans[i], user, books)
  {
    if loans == [] then 0
    else CountOpen(loans[1..], user, books) + (if CountsTowardLimit(loans[0], user, books) then 1 else 0)
  }

  /** The loans other than the stored row of `l` itself. */
  function Others(loans: seq<Loan>, pk: Option<nat>): (r: seq<Loan>)
    ensures |r| <= |loans|
    ensures forall x :: x in r <==> x in loans && !(pk.Some? && x.pk == pk)
  {
    if loans == [] then []
    else
      var rest := Others(loans[1..], pk);
      assert forall x :: x in loans <==> x == loans[0] || x in loans[1..];
      if pk.Some? && loans[0].pk == pk then rest else [loans[0]] + rest
  }

  /** The stored state the validation reads. */
  datatype Snapshot = Snapshot(
    books: map<BookId, Books.Book>,
    bundles: map<BundleId, Bundles.Bundle>,
    profiles: set<UserId>,
    subs: seq<Subscriptions.Subscription>)

  /** The plan and limit part of both subclass `clean` methods, given how many
      open loans of the kind are counted against the user. */
  function CleanEntitlement(l: Loan, s: Snapshot, now: Instant, counted: nat): (r: Outcome)
  {
    if l.user !in s.profiles then Fail(ProfileNotFound)
    else if l.target.BookLoan? then
      if !Profiles.HasActiveFreePlan(s.subs, l.user, now) then Fail(NoFreePlan)
      else if Profiles.MaxBooksAllowed(s.subs, l.user, now) <= counted then Fail(LimitReached)
      else Pass
    else
      if !Profiles.HasActiveBundlePlan(s.subs, l.user, now) then Fail(NoBundlePlan)
      else if Profiles.MaxBundlesAllowed(s.subs, l.user, now) <= counted then Fail(LimitReached)
      else Pass
  }

  /** Whether what the loan lends may be lent: a copy NORMAL or BOOKED, or an
      available bundle. */
  function CleanItem(l: Loan, s: Snapshot): (r: Outcome)
    ensures r.Pass? <==> match l.target
      case BookLoan(b) => b in s.books && s.books[b].status in {Books.Normal, Books.Booked}
      case BundleLoan(b) => b in s.bundles && Bundles.IsAvailable(s.books, s.bundles[b])
  {
    match l.target
    case BookLoan(b) =>
      if b !in s.books then Fail(BookNotFound)
      else if s.books[b].status !in {Books.Normal, Books.Booked} then Fail(NotAvailable)
      else Pass
    case BundleLoan(b) =>
      if b !in s.bundles then Fail(BundleNotFound)
      else if !Bundles.IsAvailable(s.books, s.bundles[b]) then Fail(NotAvailable)
      else Pass
  }

  /** `BookBorrowing.clean` / `BundleBorrowing.clean` as written: the base
      check, the item, the plan, then the limit, where the count runs over
      every stored loan of the kind, the stored row of this loan included. */
  function CleanAsWritten(l: Loan, s: Snapshot, loans: seq<Loan>, now: Instant): (r: Outcome)
    ensures r.Pass? <==>
      && CleanBase(l).Pass? && CleanItem(l, s).Pass? && l.user in s.profiles
      && (if l.target.BookLoan? then
            Profiles.HasActiveFreePlan(s.subs, l.user, now)
            && CountOpen(loans, l.user, true) < Profiles.MaxBooksAllowed(s.subs, l.user, now)
          else
            Profiles.HasActiveBundlePlan(s.subs, l.user, now)
            && CountOpen(loans, l.user, false) < Profiles.MaxBundlesAllowed(s.subs, l.user, now))
  {
    if CleanBase(l).Fail? then CleanBase(l)
    else if CleanItem(l, s).Fail? then CleanItem(l, s)
    else CleanEntitlement(l, s, now, CountOpen(loans, l.user, l.target.BookLoan?))
  }

  /** The validation with the limit counted over the other loans only, as the
      overlap check of `Subscription.clean` does. For a loan not yet stored it
      is the validation as written. */
  function Clean(l: Loan, s: Snapshot, loans: seq<Loan>, now: Instant): (r: Outcome)
    ensures r.Pass? <==>
      && CleanBase(l).Pass? && CleanItem(l, s).Pass? && l.user in s.profiles
      && (if l.target.BookLoan? then
            Profiles.HasActiveFreePlan(s.subs, l.user, now)
            && CountOpen(Others(loans, l.pk), l.user, true) < Profiles.MaxBooksAllowed(s.subs, l.user, now)
          else
            Profiles.HasActiveBundlePlan(s.subs, l.user, now)
            && CountOpen(Others(loans, l.pk), l.user, false) < Profiles.MaxBundlesAllowed(s.subs, l.user, now))
    ensures r.Fail? && r.error == LimitReached ==>
      CountOpen(Others(loans, l.pk), l.user, l.target.BookLoan?) > 0
      || (l.target.BookLoan? && Profiles.MaxBooksAllowed(s.subs, l.user, now) == 0)
      || (l.target.BundleLoan? && Profiles.MaxBundlesAllowed(s.subs, l.user, now) == 0)
  {
    if CleanBase(l).Fail? then CleanBase(l)
    else if CleanItem(l, s).Fail? then CleanItem(l, s)
    else CleanEntitlement(l, s, now, CountOpen(Others(loans, l.pk), l.user, l.target.BookLoan?))
  }

  /** Both validations agree on a loan that has never been stored. */
  lemma {:induction false} OthersWithoutKey(loans: seq<Loan>)
    ensures Others(loans, None) == loans
  {
    if loans != [] {
      OthersWithoutKey(loans[1..]);
    }
  }

  lemma CleanAgreesOnNewLoans(l: Loan, s: Snapshot, loans: seq<Loan>, now: Instant)
    requires l.pk.None?
    ensures Clean(l, s, loans, now) == CleanAsWritten(l, s, loans, now)
  {
    OthersWithoutKey(loans);
  }

  /** As written, a user at the limit cannot save again the loan that reached
      it: with a one-book plan and the loan stored as PENDING, saving the
      same row once more (to record its return, say) counts the stored row
      and is refused, while the corrected validation lets it through. */
  lemma SelfCountedAtLimit(stored: Loan, l: Loan, s: Snapshot, now: Instant)
    requires stored.pk == Some(1) && stored.status == Pending && stored.target.BookLoan?
    requires l.pk == stored.pk && l.user == stored.user && l.target.BookLoan?
    requires CleanBase(l).Pass? && CleanItem(l, s).Pass? && l.user in s.profiles
    requires Profiles.HasActiveFreePlan(s.subs, l.user, now)
    requires Profiles.MaxBooksAllowed(s.subs, l.user, now) == 1
    ensures CleanAsWritten(l, s, [stored], now) == Fail(LimitReached)
    ensures Clean(l, s, [stored], now) == Pass
  {
    assert [stored][1..] == [];
    assert Others([stored], l.pk) == [];
  }

  /** An OVERDUE loan never counts toward the limit: adding one leaves the
      count where it was. */
  lemma {:induction false} OverdueNotCounted(loans: seq<Loan>, o: Loan, user: UserId, books: bool)
    requires o.status == Overdue
    ensures CountOpen(loans + [o], user, books) == CountOpen(loans, user, books)
  {
    if loans != [] {
      assert (loans + [o])[1..] == loans[1..] + [o];
      OverdueNotCounted(loans[1..], o, user, books);
    } else {
      assert [o][1..] == [];
    }
  }

  /** A return on the very instant of borrowing passes the base check; one
      instant earlier does not. */
  lemma ReturnDateBoundary(l: Loan)
    ensures CleanBase(l.(returnDate := Some(l.borrowDate))).Pass?
    ensures CleanBase(l.(returnDate := Some(l.borrowDate - 1))) == Fail(ReturnBeforeBorrow)
  {
  }
}
