/** What a borrower's profile derives from the stored subscriptions and borrow
    records (users/models.py): age, the active subscription and the
    entitlements it grants, the active borrows and the overdue check. */
module Profiles {
  import opened Common
  import Subscriptions
  import Records

  /** A calendar date; `month` and `day` compare as the tuple the source builds. */
  datatype Date = Date(year: int, month: int, day: int)

  /** `(a.month, a.day) < (b.month, b.day)` */
  predicate MonthDayBefore(a: Date, b: Date)
  {
    a.month < b.month || (a.month == b.month && a.day < b.day)
  }

  /** Lexicographic order of dates. */
  predicate DateBefore(a: Date, b: Date)
  {
    a.year < b.year || (a.year == b.year && MonthDayBefore(a, b))
  }

  /** The same month and day, `n` years after `d`. */
  function Anniversary(d: Date, n: int): Date
  {
    d.(year := d.year + n)
  }

  /** The borrower's profile; `borrowLimit` is the per-borrower limit the
      borrow handlers read, which the source's Profile does not declare. */
  datatype Profile = Profile(user: UserId, username: string, birthday: Option<Date>, borrowLimit: nat)

  /** `age`: None without a birthday; otherwise the number of anniversaries
      of the birthday that have passed by `today` (the anniversary day itself
      included). */
  function Age(birthday: Option<Date>, today: Date): (r: Option<int>)
    ensures r.None? <==> birthday.None?
    ensures r.Some? ==>
      && !DateBefore(today, Anniversary(birthday.value, r.value))
      && DateBefore(today, Anniversary(birthday.value, r.value + 1))
  {
    match birthday
    case None => None
    case Some(b) => Some(today.year - b.year - (if MonthDayBefore(today, b) then 1 else 0))
  }

  /** A birthday has at most one completed-year count: any `n` whose
      anniversary has passed and whose next one has not is the age. */
  lemma AgeIsCompletedYears(b: Date, today: Date, n: int)
    requires !DateBefore(today, Anniversary(b, n)) && DateBefore(today, Anniversary(b, n + 1))
    ensures Age(Some(b), today) == Some(n)
  {
  }

  /** The rows the `active_subscription` query keeps: the user's ACTIVE
      subscriptions with start <= now < end (end excluded). */
  predicate InWindow(s: Subscriptions.Subscription, user: UserId, now: Instant)
  {
    s.user == user && s.status == Subscriptions.Active && s.start <= now
    && s.end.Some? && now < s.end.value
  }

  /** `active_subscription`: the first row in descending start order. Rows
      with the same start come in table order. */
  function ActiveSubscription(subs: seq<Subscriptions.Subscription>, user: UserId, now: Instant): (r: Option<nat>)
    ensures r.None? <==> forall i | 0 <= i < |subs| :: !InWindow(subs[i], user, now)
    ensures r.Some? ==> r.value < |subs| && InWindow(subs[r.value], user, now)
    ensures r.Some? ==> forall i | 0 <= i < |subs| && InWindow(subs[i], user, now) ::
      subs[i].start < subs[r.value].start || (subs[i].start == subs[r.value].start && r.value <= i)
  {
    if subs == [] then None
    else
      var last := |subs| - 1;
      var r := ActiveSubscription(subs[..last], user, now);
      assert forall i | 0 <= i < last :: subs[..last][i] == subs[i];
      if InWindow(subs[last], user, now) && (r.None? || subs[last].start > subs[r.value].start) then Some(last)
      else r
  }

  /** When no two ACTIVE subscriptions of a user overlap, the user has at
      most one subscription in the window, and that one is the active one. */
  lemma ActiveSubscriptionUnique(subs: seq<Subscriptions.Subscription>, user: UserId, now: Instant, i: nat)
    requires Subscriptions.Disjoint(subs)
    requires i < |subs| && InWindow(subs[i], user, now)
    ensures ActiveSubscription(subs, user, now) == Some(i)
  {
    var r := ActiveSubscription(subs, user, now);
    if r.value != i {
      assert Subscriptions.ActiveOverlap(subs[i], subs[r.value]);
    }
  }

  /** The query's window lies inside `is_active`'s, which also admits the
      end instant itself. */
  lemma WindowImpliesIsActive(s: Subscriptions.Subscription, user: UserId, now: Instant)
    requires InWindow(s, user, now)
    ensures Subscriptions.IsActive(s, now)
  {
  }

  /** At its end instant a subscription is still `is_active`, but no longer
      the profile's active subscription. */
  lemma EndInstantExcluded(s: Subscriptions.Subscription)
    requires s.status == Subscriptions.Active && s.end.Some? && s.start <= s.end.value
    ensures Subscriptions.IsActive(s, s.end.value)
    ensures ActiveSubscription([s], s.user, s.end.value).None?
  {
  }

  /** `has_active_free_plan`: the active subscription carries a free plan. */
  predicate HasActiveFreePlan(subs: seq<Subscriptions.Subscription>, user: UserId, now: Instant)
    ensures HasActiveFreePlan(subs, user, now) ==>
      exists i | 0 <= i < |subs| :: InWindow(subs[i], user, now) && subs[i].free.Some?
  {
    var r := ActiveSubscription(subs, user, now);
    r.Some? && subs[r.value].free.Some?
  }

  /** `has_active_bundle_plan`: the active subscription carries a bundle plan. */
  predicate HasActiveBundlePlan(subs: seq<Subscriptions.Subscription>, user: UserId, now: Instant)
    ensures HasActiveBundlePlan(subs, user, now) ==>
      exists i | 0 <= i < |subs| :: InWindow(subs[i], user, now) && subs[i].bundle.Some?
  {
    var r := ActiveSubscription(subs, user, now);
    r.Some? && subs[r.value].bundle.Some?
  }

  /** `max_books_allowed`: the active free plan's limit, 0 without one. */
  function MaxBooksAllowed(subs: seq<Subscriptions.Subscription>, user: UserId, now: Instant): (n: nat)
    ensures !HasActiveFreePlan(subs, user, now) ==> n == 0
  {
    var r := ActiveSubscription(subs, user, now);
    if r.Some? && subs[r.value].free.Some? then subs[r.value].free.value.maxBooks else 0
  }

  /** `max_bundles_allowed`: the active bundle plan's limit, 0 without one. */
  function MaxBundlesAllowed(subs: seq<Subscriptions.Subscription>, user: UserId, now: Instant): (n: nat)
    ensures !HasActiveBundlePlan(subs, user, now) ==> n == 0
  {
    var r := ActiveSubscription(subs, user, now);
    if r.Some? && subs[r.value].bundle.Some? then subs[r.value].bundle.value.maxBundles else 0
  }

  /** In a table without overlaps, a subscription in the window decides the
      entitlements: its plans are the active plans and their limits the
      maxima; without any subscription in the window the user has none. */
  lemma EntitlementsFromWindow(subs: seq<Subscriptions.Subscription>, user: UserId, now: Instant)
    requires Subscriptions.Disjoint(subs)
    ensures (forall i | 0 <= i < |subs| :: !InWindow(subs[i], user, now)) ==>
      !HasActiveFreePlan(subs, user, now) && !HasActiveBundlePlan(subs, user, now)
      && MaxBooksAllowed(subs, user, now) == 0 && MaxBundlesAllowed(subs, user, now) == 0
    ensures forall i | 0 <= i < |subs| && InWindow(subs[i], user, now) ::
      && (HasActiveFreePlan(subs, user, now) <==> subs[i].free.Some?)
      && (HasActiveBundlePlan(subs, user, now) <==> subs[i].bundle.Some?)
      && (subs[i].free.Some? ==> MaxBooksAllowed(subs, user, now) == subs[i].free.value.maxBooks)
      && (subs[i].bundle.Some? ==> MaxBundlesAllowed(subs, user, now) == subs[i].bundle.value.maxBundles)
  {
    forall i | 0 <= i < |subs| && InWindow(subs[i], user, now)
      ensures ActiveSubscription(subs, user, now) == Some(i)
    {
      ActiveSubscriptionUnique(subs, user, now, i);
    }
  }

  /** `active_borrows`: the borrower's ACTIVE records, in table order. */
  function ActiveBorrows(records: seq<Records.BorrowRecord>, user: UserId): (r: seq<Records.BorrowRecord>)
    ensures |r| == Records.ActiveCount(records, user)
    ensures forall x :: x in r <==> x in records && Records.IsActiveOf(x, user)
  {
    if records == [] then []
    else
      var rest := ActiveBorrows(records[1..], user);
      assert forall x :: x in records <==> x == records[0] || x in records[1..];
      if Records.IsActiveOf(records[0], user) then [records[0]] + rest else rest
  }

  /** `borrowed_books`: the copies of the active records that lend a copy. */
  function BorrowedBooks(active: seq<Records.BorrowRecord>): (r: seq<BookId>)
    ensures |r| <= |active|
    ensures forall k :: k in r <==> exists x | x in active :: x.item == Records.BookItem(k)
  {
    if active == [] then []
    else
      var rest := BorrowedBooks(active[1..]);
      assert forall x :: x in active <==> x == active[0] || x in active[1..];
      match active[0].item
      case BookItem(k) => [k] + rest
      case BundleItem(_) => rest
  }

  /** `borrowed_bundles`: the bundles of the active records that lend one. */
  function BorrowedBundles(active: seq<Records.BorrowRecord>): (r: seq<BundleId>)
    ensures |r| <= |active|
    ensures forall k :: k in r <==> exists x | x in active :: x.item == Records.BundleItem(k)
  {
    if active == [] then []
    else
      var rest := BorrowedBundles(active[1..]);
      assert forall x :: x in active <==> x == active[0] || x in active[1..];
      match active[0].item
      case BookItem(_) => rest
      case BundleItem(k) => [k] + rest
  }

  /** Every active record lends exactly one thing, so the two lists together
      account for every active record. */
  lemma {:induction false} BorrowedPartition(active: seq<Records.BorrowRecord>)
    ensures |BorrowedBooks(active)| + |BorrowedBundles(active)| == |active|
  {
    if active != [] {
      BorrowedPartition(active[1..]);
    }
  }

  /** The fixed limit `can_borrow` uses. */
  const MaxBorrows: nat := 5

  /** `can_borrow`: fewer than five ACTIVE records. */
  predicate CanBorrow(records: seq<Records.BorrowRecord>, user: UserId)
    ensures CanBorrow(records, user) <==> |ActiveBorrows(records, user)| < MaxBorrows
  {
    Records.ActiveCount(records, user) < MaxBorrows
  }

  /** Opening a sixth active record is what `can_borrow` rules out: with five
      active records a borrower can borrow no more, and closing one of them
      makes room again. */
  lemma CanBorrowAtLimit(records: seq<Records.BorrowRecord>, user: UserId, i: nat, closed: Records.BorrowRecord)
    requires Records.ActiveCount(records, user) == MaxBorrows
    requires i < |records| && Records.IsActiveOf(records[i], user) && closed.status != Records.Active
    ensures !CanBorrow(records, user)
    ensures CanBorrow(records[i := closed], user)
  {
    Records.ActiveCountClose(records, i, closed, user);
  }

  /** `has_overdue_items`: some ACTIVE record of the borrower was due
      strictly before now. */
  predicate HasOverdueItems(records: seq<Records.BorrowRecord>, user: UserId, now: Instant)
    ensures HasOverdueItems(records, user, now) ==> Records.ActiveCount(records, user) > 0
  {
    exists i | 0 <= i < |records| :: Records.IsActiveOf(records[i], user) && records[i].dueDate < now
  }

  /** Once a borrower has an overdue item, they keep having one as time
      passes while the records stay as they are. */
  lemma OverdueStaysOverdue(records: seq<Records.BorrowRecord>, user: UserId, now: Instant, later: Instant)
    requires now <= later && HasOverdueItems(records, user, now)
    ensures HasOverdueItems(records, user, later)
  {
    var i :| 0 <= i < |records| && Records.IsActiveOf(records[i], user) && records[i].dueDate < now;
    assert records[i].dueDate < later;
  }

  /** A record due exactly now is not overdue yet; one instant later it is. */
  lemma OverdueBoundary(r: Records.BorrowRecord, user: UserId)
    requires Records.IsActiveOf(r, user)
    ensures !HasOverdueItems([r], user, r.dueDate)
    ensures HasOverdueItems([r], user, r.dueDate + 1)
  {
    assert [r][0] == r;
  }
}
