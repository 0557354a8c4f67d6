/** Borrow records, the loans the request handlers create and close. The
    model of the record is inferred from the handlers and properties that
    use it (api/views.py, circulation/views.py, users/models.py,
    check_overdue.py): the item lent, the borrower, a status, the borrowed,
    due and returned instants, and free-text notes. */
module Records {
  import opened Common
  import Text

  /** The record statuses the handlers use; `Active` is stored as 'ACT'. */
  datatype RecordStatus = Active | Returned | Lost

  /** What a record lends: a copy or a bundle, never both and never neither. */
  datatype LoanItem = BookItem(book: BookId) | BundleItem(bundle: BundleId)

  datatype BorrowRecord = BorrowRecord(
    item: LoanItem,
    borrower: UserId,
    status: RecordStatus,
    borrowedDate: Instant,
    dueDate: Instant,
    returnedDate: Option<Instant>,
    notes: string)

  predicate IsActiveFor(r: BorrowRecord, book: BookId)
  {
    r.item == BookItem(book) && r.status == Active
  }

  /** `filter(book=book, status=ACTIVE).first()`. Records are kept in
      primary-key order, which is the order `first()` uses. */
  function FirstActiveFor(records: seq<BorrowRecord>, book: BookId): (r: Option<nat>)
    ensures r.None? <==> forall i | 0 <= i < |records| :: !IsActiveFor(records[i], book)
    ensures r.Some? ==>
      && r.value < |records| && IsActiveFor(records[r.value], book)
      && forall i | 0 <= i < r.value :: !IsActiveFor(records[i], book)
  {
    if records == [] then None
    else if IsActiveFor(records[0], book) then Some(0)
    else match FirstActiveFor(records[1..], book)
      case None => None
      case Some(i) => Some(i + 1)
  }

  predicate IsActiveOf(r: BorrowRecord, user: UserId)
  {
    r.borrower == user && r.status == Active
  }

  /** `filter(borrower=borrower, status=ACTIVE).count()`. */
  function ActiveCount(records: seq<BorrowRecord>, user: UserId): (n: nat)
    ensures n <= |records|
    ensures n == 0 <==> forall i | 0 <= i < |records| :: !IsActiveOf(records[i], user)
  {
    if records == [] then 0
    else ActiveCount(records[1..], user) + (if IsActiveOf(records[0], user) then 1 else 0)
  }

  /** Appending a record adds one to the count exactly when it is an active
      record of that borrower. */
  lemma {:induction false} ActiveCountAppend(records: seq<BorrowRecord>, r: BorrowRecord, user: UserId)
    ensures ActiveCount(records + [r], user) == ActiveCount(records, user) + (if IsActiveOf(r, user) then 1 else 0)
  {
    if records != [] {
      assert (records + [r])[1..] == records[1..] + [r];
      ActiveCountAppend(records[1..], r, user);
    }
  }

  /** Replacing a record by one that is not active takes one off the count
      when the old one was an active record of that borrower. */
  lemma {:induction false} ActiveCountClose(records: seq<BorrowRecord>, i: nat, r: BorrowRecord, user: UserId)
    requires i < |records| && r.status != Active
    ensures ActiveCount(records[i := r], user) == ActiveCount(records, user) - (if IsActiveOf(records[i], user) then 1 else 0)
  {
    if i > 0 {
      assert records[i := r][1..] == records[1..][i - 1 := r];
      ActiveCountClose(records[1..], i - 1, r, user);
    }
  }

  /** The text the return handlers put between the old notes and the new. */
  const ReturnNotesLabel: string := "\nReturn notes: "

  /** The label without its trailing space. */
  const ReturnTag: string := "\nReturn notes:"

  /** `f"{notes}\nReturn notes: {new}".strip()` */
  function ReturnNotes(prior: string, added: string): (r: string)
    ensures |r| <= |prior| + |ReturnNotesLabel| + |added|
    ensures r == [] || (!Text.IsSpace(r[0]) && !Text.IsSpace(r[|r| - 1]))
  {
    Text.Strip(prior + ReturnNotesLabel + added)
  }

  /** Whitespace before the first non-space character is all `lstrip` removes. */
  lemma {:induction false} LStripBlankPrefix(a: string, b: string)
    requires forall i | 0 <= i < |a| :: Text.IsSpace(a[i])
    ensures Text.LStrip(a + b) == Text.LStrip(b)
    decreases |a|
  {
    if a == [] {
      assert a + b == b;
    } else {
      assert (a + b)[0] == a[0];
      assert (a + b)[1..] == a[1..] + b;
      LStripBlankPrefix(a[1..], b);
    }
  }

  /** The label's final ':' is where stripping stops from either side. */
  lemma NotesSplit(prior: string, added: string)
    ensures ReturnNotes(prior, added) == Text.LStrip(prior + ReturnTag) + Text.RStrip(" " + added)
  {
    var head := prior + ReturnTag;
    assert ReturnNotesLabel == ReturnTag + " ";
    assert prior + ReturnNotesLabel + added == head + (" " + added);
    assert head[|head| - 1] == ':';
    Text.StripJoin(head, " " + added);
  }

  /** What `lstrip` leaves of the earlier notes and the label. */
  lemma TagAfterPrior(prior: string)
    ensures Text.HasNonSpace(prior) ==> Text.LStrip(prior + ReturnTag) == Text.LStrip(prior) + ReturnTag
    ensures !Text.HasNonSpace(prior) ==> Text.LStrip(prior + ReturnTag) == ReturnTag[1..]
  {
    if Text.HasNonSpace(prior) {
      Text.LStripAppend(prior, ReturnTag);
    } else {
      var blank := prior + ReturnTag[..1];
      assert prior + ReturnTag == blank + ReturnTag[1..];
      assert !Text.HasNonSpace(blank) by {
        forall i | 0 <= i < |blank| ensures Text.IsSpace(blank[i]) {
          if i < |prior| { assert blank[i] == prior[i]; }
        }
      }
      LStripBlankPrefix(blank, ReturnTag[1..]);
      assert ReturnTag[1..][0] == 'R';
    }
  }

  /** Returning never loses the earlier notes: they stay in front, with only
      their leading whitespace removed, followed by the label and the new
      notes without trailing whitespace. Blank earlier notes vanish together
      with the line break. */
  lemma ReturnNotesKeepPrior(prior: string, added: string)
    ensures Text.HasNonSpace(prior) ==>
      ReturnNotes(prior, added) == Text.LStrip(prior) + ReturnTag + Text.RStrip(" " + added)
    ensures !Text.HasNonSpace(prior) ==>
      ReturnNotes(prior, added) == ReturnTag[1..] + Text.RStrip(" " + added)
  {
    NotesSplit(prior, added);
    TagAfterPrior(prior);
  }

  /** The record both borrow handlers create: ACTIVE, borrowed at the second
      clock reading `t2`, due 30 days after the first reading `t1`. */
  function NewRecord(book: BookId, borrower: UserId, notes: string, t1: Instant, t2: Instant): (r: BorrowRecord)
    ensures IsActiveFor(r, book) && IsActiveOf(r, borrower) && r.returnedDate.None?
    ensures r.borrowedDate == t2 && r.dueDate == t1 + LoanPeriod && r.notes == notes
    ensures t1 <= t2 ==> r.dueDate <= r.borrowedDate + LoanPeriod
  {
    BorrowRecord(BookItem(book), borrower, Active, t2, t1 + LoanPeriod, None, notes)
  }

  /** The record after a successful return at `now`. */
  function ReturnedRecord(r: BorrowRecord, now: Instant, notes: string): (q: BorrowRecord)
    ensures q.status == Returned && q.returnedDate == Some(now)
    ensures q.item == r.item && q.borrower == r.borrower
    ensures q.borrowedDate == r.borrowedDate && q.dueDate == r.dueDate
    ensures q.notes == ReturnNotes(r.notes, notes)
  {
    r.(status := Returned, returnedDate := Some(now), notes := ReturnNotes(r.notes, notes))
  }

  /** The notes of a returned record keep the earlier notes in front. */
  lemma ReturnedNotes(r: BorrowRecord, now: Instant, notes: string)
    ensures HasNonSpaceNotes(r) ==>
      ReturnedRecord(r, now, notes).notes == Text.LStrip(r.notes) + ReturnTag + Text.RStrip(" " + notes)
  {
    ReturnNotesKeepPrior(r.notes, notes);
  }

  predicate HasNonSpaceNotes(r: BorrowRecord)
  {
    Text.HasNonSpace(r.notes)
  }
}
