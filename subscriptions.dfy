/** Borrowing plans and subscriptions (subscriptions/models.py): duration
    labels, validation of a subscription before it is stored (plan
    required, default end date, no overlapping active subscription), where a
    saved subscription goes in the table, and the `is_active` property. */
module Subscriptions {
  import opened Common
  import Text

  datatype PlanDuration = PlanDuration(months: nat, description: string)

  /** `PlanDuration.__str__`: the number of months, then "month", plural
      only above one. */
  function DurationLabel(d: PlanDuration): (r: string)
    ensures |r| > 6
    ensures r[|r| - 1] == 's' <==> d.months > 1
  {
    Text.Decimal(d.months) + " month" + (if d.months > 1 then "s" else "")
  }

  /** The label starts with the decimal digits of the month count, which read
      back as that count, and ends in "months" exactly when the count
      exceeds one (so 0 and 1 both read "month"). */
  lemma DurationLabelShape(d: PlanDuration)
    ensures var shown := DurationLabel(d);
      var n := |Text.Decimal(d.months)|;
      && n < |shown|
      && (forall i | 0 <= i < n :: Text.IsAsciiDigit(shown[i]))
      && Text.ParseDecimal(shown[..n]) == d.months
      && shown[n..n + 6] == " month"
      && (d.months > 1 <==> |shown| == n + 7 && shown[n + 6] == 's')
      && (d.months <= 1 <==> |shown| == n + 6)
  {
    var digits := Text.Decimal(d.months);
    var shown := DurationLabel(d);
    assert shown[..|digits|] == digits;
    Text.DecimalRoundTrip(d.months);
  }

  datatype FreePlan = FreePlan(name: string, duration: PlanDuration, maxBooks: nat, isActive: bool)

  datatype BundlePlan = BundlePlan(name: string, duration: PlanDuration, maxBundles: nat, isActive: bool)

  /** Subscription.Status: ACT, EXP, CAN. */
  datatype SubStatus = Active | Expired | Cancelled

  /** Primary keys issued by the database start at 1. */
  type Pk = k: int | k >= 1 witness 1

  /** `pk` is None before the first save; `end` is None while `end_date` has
      not been set. */
  datatype Subscription = Subscription(
    pk: Option<Pk>,
    user: UserId,
    free: Option<FreePlan>,
    bundle: Option<BundlePlan>,
    start: Instant,
    end: Option<Instant>,
    status: SubStatus)

  predicate HasPlan(s: Subscription)
  {
    s.free.Some? || s.bundle.Some?
  }

  /** The running maximum of `clean`: the longest duration among the
      selected plans, 0 when none is selected. */
  function PlanMonths(s: Subscription): (m: nat)
    ensures s.free.Some? ==> s.free.value.duration.months <= m
    ensures s.bundle.Some? ==> s.bundle.value.duration.months <= m
    ensures m == 0
      || (s.free.Some? && m == s.free.value.duration.months)
      || (s.bundle.Some? && m == s.bundle.value.duration.months)
  {
    var f := if s.free.Some? then s.free.value.duration.months else 0;
    var b := if s.bundle.Some? then s.bundle.value.duration.months else 0;
    if f >= b then f else b
  }

  /** `relativedelta` month arithmetic is a parameter; all the model needs of
      it is that adding more months never gives an earlier instant. */
  ghost predicate MonthsMonotone(addMonths: (Instant, nat) -> Instant)
  {
    forall t: Instant, m: nat, n: nat | m <= n :: addMonths(t, m) <= addMonths(t, n)
  }

  /** The end date after `clean`: the one given, or the start plus the
      longest plan duration. */
  function EndAfterClean(s: Subscription, addMonths: (Instant, nat) -> Instant): Instant
  {
    if s.end.Some? then s.end.value else addMonths(s.start, PlanMonths(s))
  }

  /** A row the overlap query of `clean` returns: an ACTIVE subscription of
      the same user with start < this end and end > this start (strict, so
      intervals that only touch pass), other than the row being updated. */
  predicate Clashes(other: Subscription, s: Subscription, end: Instant)
  {
    && other.user == s.user
    && other.status == Active
    && other.start < end
    && other.end.Some? && other.end.value > s.start
    && !(s.pk.Some? && other.pk == s.pk)
  }

  predicate AnyClash(others: seq<Subscription>, s: Subscription, end: Instant)
  {
    exists i | 0 <= i < |others| :: Clashes(others[i], s, end)
  }

  /** What `clean` decides, given the stored subscriptions: no plan is an
      error; otherwise the end date is filled in when missing, and a clash
      with a stored ACTIVE subscription is an error. */
  function CleanResult(others: seq<Subscription>, s: Subscription, addMonths: (Instant, nat) -> Instant): (r: Result<Subscription>)
    ensures r.Ok? <==> HasPlan(s) && !AnyClash(others, s, EndAfterClean(s, addMonths))
    ensures r.Err? ==> (r.error == NoPlanSelected <==> !HasPlan(s))
    ensures r.Err? ==> (r.error == NoPlanSelected || r.error == OverlappingSubscription)
    ensures r.Ok? ==> r.value == s.(end := Some(EndAfterClean(s, addMonths)))
  {
    if !HasPlan(s) then Err(NoPlanSelected)
    else if AnyClash(others, s, EndAfterClean(s, addMonths)) then Err(OverlappingSubscription)
    else Ok(s.(end := Some(EndAfterClean(s, addMonths))))
  }

  /** `Subscription.clean`, step by step as the source does it. */
  method Clean(others: seq<Subscription>, s: Subscription, addMonths: (Instant, nat) -> Instant) returns (r: Result<Subscription>)
    ensures r == CleanResult(others, s, addMonths)
  {
    if s.free.None? && s.bundle.None? {
      return Err(NoPlanSelected);
    }
    var months := 0;
    if s.free.Some? {
      months := if s.free.value.duration.months > months then s.free.value.duration.months else months;
    }
    if s.bundle.Some? {
      months := if s.bundle.value.duration.months > months then s.bundle.value.duration.months else months;
    }
    var cleaned := s;
    if s.end.None? {
      cleaned := cleaned.(end := Some(addMonths(s.start, months)));
    }
    var overlapping := exists i | 0 <= i < |others| :: Clashes(others[i], s, cleaned.end.value);
    if overlapping {
      return Err(OverlappingSubscription);
    }
    r := Ok(cleaned);
  }

  /** The default end date lies no earlier than the start plus any selected
      plan's duration; a given end date is kept as it is. */
  lemma DefaultEndCoversPlans(s: Subscription, addMonths: (Instant, nat) -> Instant)
    requires MonthsMonotone(addMonths)
    ensures s.end.Some? ==> EndAfterClean(s, addMonths) == s.end.value
    ensures s.end.None? && s.free.Some? ==>
      addMonths(s.start, s.free.value.duration.months) <= EndAfterClean(s, addMonths)
    ensures s.end.None? && s.bundle.Some? ==>
      addMonths(s.start, s.bundle.value.duration.months) <= EndAfterClean(s, addMonths)
  {
  }

  /** `is_active`: ACTIVE and now within [start, end], both ends included. */
  predicate IsActive(s: Subscription, now: Instant)
    requires s.end.Some?
    ensures IsActive(s, now) ==> s.status == Active && s.start <= s.end.value
    ensures now < s.start || now > s.end.value ==> !IsActive(s, now)
  {
    s.status == Active && s.start <= now <= s.end.value
  }

  /** Two ACTIVE subscriptions of one user whose intervals overlap. */
  predicate ActiveOverlap(a: Subscription, b: Subscription)
  {
    && a.user == b.user && a.status == Active && b.status == Active
    && a.end.Some? && b.end.Some?
    && a.start < b.end.value && b.start < a.end.value
  }

  /** The table holds no two overlapping ACTIVE subscriptions of one user. */
  ghost predicate Disjoint(subs: seq<Subscription>)
  {
    forall i, j | 0 <= i < |subs| && 0 <= j < |subs| && i != j :: !ActiveOverlap(subs[i], subs[j])
  }

  /** Every stored row has a primary key and an end date, and keys are unique. */
  ghost predicate WellFormed(subs: seq<Subscription>)
  {
    && (forall i | 0 <= i < |subs| :: subs[i].pk.Some? && subs[i].end.Some?)
    && (forall i, j | 0 <= i < |subs| && 0 <= j < |subs| && i != j :: subs[i].pk != subs[j].pk)
  }

  /** Position of the row with primary key `k`. */
  function IndexOfPk(subs: seq<Subscription>, k: Pk): (r: Option<nat>)
    ensures r.Some? ==> r.value < |subs| && subs[r.value].pk == Some(k)
    ensures r.None? ==> forall i | 0 <= i < |subs| :: subs[i].pk != Some(k)
  {
    if subs == [] then None
    else if subs[0].pk == Some(k) then Some(0)
    else match IndexOfPk(subs[1..], k)
      case None => None
      case Some(i) => Some(i + 1)
  }

  /** A key above every key in use. */
  function NextPk(subs: seq<Subscription>): (k: Pk)
    ensures forall i | 0 <= i < |subs| :: subs[i].pk.Some? ==> subs[i].pk.value < k
  {
    if subs == [] then 1
    else
      var rest := NextPk(subs[1..]);
      if subs[0].pk.Some? && subs[0].pk.value >= rest then subs[0].pk.value + 1 else rest
  }

  /** The table after the database writes a subscription that passed
      `clean`: the row with the same key is replaced; a row without a key is
      appended under a fresh key; a key not in use is appended as given. */
  function Stored(subs: seq<Subscription>, c: Subscription): seq<Subscription>
  {
    if c.pk.None? then subs + [c.(pk := Some(NextPk(subs)))]
    else match IndexOfPk(subs, c.pk.value)
      case Some(i) => subs[i := c]
      case None => subs + [c]
  }

  /** Saving through `clean` never lets two ACTIVE subscriptions of one user
      overlap, and keeps keys unique: the overlap query checks the saved
      row against every other stored row. */
  lemma SaveKeepsDisjoint(subs: seq<Subscription>, s: Subscription, addMonths: (Instant, nat) -> Instant)
    requires WellFormed(subs) && Disjoint(subs)
    requires CleanResult(subs, s, addMonths).Ok?
    ensures WellFormed(Stored(subs, CleanResult(subs, s, addMonths).value))
    ensures Disjoint(Stored(subs, CleanResult(subs, s, addMonths).value))
  {
    var c := CleanResult(subs, s, addMonths).value;
    var end := EndAfterClean(s, addMonths);
    var t := Stored(subs, c);
    // n: where the saved row sits in the new table
    var n: nat := if c.pk.Some? && IndexOfPk(subs, c.pk.value).Some? then IndexOfPk(subs, c.pk.value).value else |subs|;
    assert n < |t| && t[n].user == s.user && t[n].start == s.start && t[n].status == s.status;
    assert t[n].end == Some(end);
    assert forall i | 0 <= i < |t| && i != n :: i < |subs| && t[i] == subs[i];
    forall j | 0 <= j < |t| && j != n
      ensures !ActiveOverlap(t[n], t[j]) && !ActiveOverlap(t[j], t[n])
    {
      assert t[j] == subs[j];
      assert s.pk.Some? ==> subs[j].pk != s.pk;
      assert !Clashes(subs[j], s, end);
    }
  }
}
