/** The `save` methods of circulation/models.py and subscriptions/models.py:
    each settles or validates the object first and writes it to its table
    only when the validation passes. */
module Saves {
  import opened Common
  import Subscriptions
  import Borrowings
  import Store

  /** Position of the loan row with key `k`. */
  function IndexOfLoan(loans: seq<Borrowings.Loan>, k: nat): (r: Option<nat>)
    ensures r.Some? ==> r.value < |loans| && loans[r.value].pk == Some(k)
    ensures r.None? ==> forall i | 0 <= i < |loans| :: loans[i].pk != Some(k)
  {
    if loans == [] then None
    else if loans[0].pk == Some(k) then Some(0)
    else match IndexOfLoan(loans[1..], k)
      case None => None
      case Some(i) => Some(i + 1)
  }

  /** A key above every loan key in use. */
  function NextLoanPk(loans: seq<Borrowings.Loan>): (k: nat)
    ensures forall i | 0 <= i < |loans| :: loans[i].pk.Some? ==> loans[i].pk.value < k
  {
    if loans == [] then 1
    else
      var rest := NextLoanPk(loans[1..]);
      if loans[0].pk.Some? && loans[0].pk.value >= rest then loans[0].pk.value + 1 else rest
  }

  /** The key the database gives the row: the loan's own, or a fresh one. */
  function KeyedLoan(loans: seq<Borrowings.Loan>, l: Borrowings.Loan): (r: Borrowings.Loan)
    ensures r.pk.Some? && r == l.(pk := r.pk)
    ensures l.pk.Some? ==> r.pk == l.pk
    ensures l.pk.None? ==> forall i | 0 <= i < |loans| :: loans[i].pk != r.pk
  {
    if l.pk.Some? then l else l.(pk := Some(NextLoanPk(loans)))
  }

  /** The loan table after the database writes `l`: the row with the same key
      is replaced, any other row is appended. */
  function StoredLoans(loans: seq<Borrowings.Loan>, l: Borrowings.Loan): seq<Borrowings.Loan>
  {
    var c := KeyedLoan(loans, l);
    match IndexOfLoan(loans, c.pk.value)
    case Some(i) => loans[i := c]
    case None => loans + [c]
  }

  /** Writing a loan keeps every row keyed and keys unique, and puts the
      written loan in the table. */
  lemma StoredLoansKeys(loans: seq<Borrowings.Loan>, l: Borrowings.Loan)
    requires Store.LoanKeysOk(loans)
    ensures Store.LoanKeysOk(StoredLoans(loans, l))
    ensures KeyedLoan(loans, l) in StoredLoans(loans, l)
    ensures forall x | x in StoredLoans(loans, l) :: x in loans || x == KeyedLoan(loans, l)
  {
    var c := KeyedLoan(loans, l);
    var t := StoredLoans(loans, l);
    match IndexOfLoan(loans, c.pk.value)
    case Some(n) =>
      assert t[n] == c;
      forall x | x in t ensures x in loans || x == c {
        var i :| 0 <= i < |t| && t[i] == x;
        if i != n { assert x == loans[i]; }
      }
    case None =>
      assert t[|loans|] == c;
  }

  /** `BaseBorrowing.save`: settle the status at `now`, validate the settled
      loan against the stored state, and write it only when it passes. The
      result is the stored loan, with its key. */
  method SaveLoan(lib: Store.Library, l: Borrowings.Loan, now: Instant) returns (r: Result<Borrowings.Loan>)
    requires lib.Valid()
    modifies lib
    ensures lib.Valid()
    ensures var settled := l.(status := Borrowings.SaveStatus(l, now));
      var checked := Borrowings.Clean(settled, old(lib.Snapshot()), old(lib.loans), now);
      && (checked.Fail? ==> r == Err(checked.error) && lib.loans == old(lib.loans))
      && (checked.Pass? ==> r == Ok(KeyedLoan(old(lib.loans), settled))
                            && lib.loans == StoredLoans(old(lib.loans), settled))
    ensures lib.books == old(lib.books) && lib.bundles == old(lib.bundles) && lib.profiles == old(lib.profiles)
    ensures lib.subs == old(lib.subs) && lib.records == old(lib.records)
  {
    var settled := l;
    if l.returnDate.Some? {
      settled := settled.(status := Borrowings.Returned);
    } else if l.status == Borrowings.Borrowed && now > l.dueDate {
      settled := settled.(status := Borrowings.Overdue);
    }
    var checked := Borrowings.Clean(settled, lib.Snapshot(), lib.loans, now);
    if checked.Fail? {
      return Err(checked.error);
    }
    StoredLoansKeys(lib.loans, settled);
    assert Store.LoanRefsOk(KeyedLoan(lib.loans, settled), lib.books, lib.bundles);
    Store.LoanChangeKeepsConsistent(lib.books, lib.bundles, lib.profiles, lib.subs, lib.records, lib.loans, StoredLoans(lib.loans, settled));
    r := Ok(KeyedLoan(lib.loans, settled));
    lib.loans := StoredLoans(lib.loans, settled);
  }

  /** `Subscription.save` as intended: validate (filling in the end date
      when none is given), and write the subscription only when it passes. */
  method SaveSubscription(lib: Store.Library, s: Subscriptions.Subscription, addMonths: (Instant, nat) -> Instant)
    returns (r: Result<Subscriptions.Subscription>)
    requires lib.Valid()
    modifies lib
    ensures lib.Valid()
    ensures r == Subscriptions.CleanResult(old(lib.subs), s, addMonths)
    ensures r.Ok? ==> lib.subs == Subscriptions.Stored(old(lib.subs), r.value)
    ensures r.Err? ==> lib.subs == old(lib.subs)
    ensures lib.books == old(lib.books) && lib.bundles == old(lib.bundles) && lib.profiles == old(lib.profiles)
    ensures lib.records == old(lib.records) && lib.loans == old(lib.loans)
  {
    r := Subscriptions.Clean(lib.subs, s, addMonths);
    if r.Err? {
      return;
    }
    Subscriptions.SaveKeepsDisjoint(lib.subs, s, addMonths);
    lib.subs := Subscriptions.Stored(lib.subs, r.value);
  }

  /** `Subscription.save` as written: `full_clean` checks the fields before
      it calls `clean`, and `end_date` admits no null, so a subscription
      without an end date is refused even though `clean` would fill one in.
      With an end date given, the outcome is that of `clean`. */
  function SaveSubscriptionAsWritten(subs: seq<Subscriptions.Subscription>, s: Subscriptions.Subscription, addMonths: (Instant, nat) -> Instant)
    : (r: Result<Subscriptions.Subscription>)
    ensures s.end.None? ==> r == Err(InvalidField)
    ensures s.end.Some? ==> r == Subscriptions.CleanResult(subs, s, addMonths)
  {
    if s.end.None? then Err(InvalidField) else Subscriptions.CleanResult(subs, s, addMonths)
  }

  /** As written, the default end date is never stored: the first
      subscription of a user, with a plan and no end date, passes `clean`
      and is refused by the save. */
  lemma DefaultEndNeverSaved(s: Subscriptions.Subscription, addMonths: (Instant, nat) -> Instant)
    requires s.free.Some? && s.end.None?
    ensures Subscriptions.CleanResult([], s, addMonths).Ok?
    ensures Subscriptions.CleanResult([], s, addMonths).value.end == Some(addMonths(s.start, Subscriptions.PlanMonths(s)))
    ensures SaveSubscriptionAsWritten([], s, addMonths) == Err(InvalidField)
  {
  }

  /** A subscription that fails validation is never stored: whatever is in
      the table after a save either was there before or passed `clean`. */
  lemma SaveAddsOnlyCleaned(subs: seq<Subscriptions.Subscription>, s: Subscriptions.Subscription, addMonths: (Instant, nat) -> Instant)
    requires Subscriptions.CleanResult(subs, s, addMonths).Ok?
    ensures var c := Subscriptions.CleanResult(subs, s, addMonths).value;
      forall x | x in Subscriptions.Stored(subs, c) :: x in subs || x == c || x == c.(pk := Some(Subscriptions.NextPk(subs)))
  {
    var c := Subscriptions.CleanResult(subs, s, addMonths).value;
    var t := Subscriptions.Stored(subs, c);
    forall x | x in t ensures x in subs || x == c || x == c.(pk := Some(Subscriptions.NextPk(subs))) {
      var i :| 0 <= i < |t| && t[i] == x;
      if i < |subs| && t[i] != c { assert x == subs[i]; }
    }
  }
}
