# NanoLibOnline lending core in Dafny

This project models the lending core of the NanoLibOnline library backend.
The backend is a Django project, and the model covers:

- physical book copies and their status;
- bundles of copies, with their membership operations and the signal handler
  that keeps member statuses in step;
- borrow records and the book and bundle borrowings, with their save-time
  status and validation;
- subscriptions and the entitlements a borrower's profile derives from them;
- the request handlers that borrow, return, write off, mark lost and delete
  copies;
- the borrow validation of the serializers;
- the `check_overdue` command, which marks overdue copies.

The database is one object, `Store.Library`. It has a field per table:
- maps keyed by primary key for copies, bundles and profiles;
- sequences in table order for subscriptions, borrow records and loans.

`Store.Library.Valid()` states the constraints the schema keeps:
- unique codes;
- foreign keys that point at stored rows;
- unique loan keys;
- no two overlapping ACTIVE subscriptions of one user.

Every operation that changes the database is a method with `modifies lib`.
Each one preserves `Valid()` and states its new state as a function of the
old one. The pure rules are functions with lemmas: status settling, the
limits, availability, the subscription windows, and the stripped return
notes.

Modules:
- `Common`: shared vocabulary (`Option`, `Result`, `Outcome`, the `Error`
  enumeration, instants as integer microseconds).
- `Text`: the Python string operations the core uses.
- `Books`, `Bundles`, `Records`, `Borrowings`, `Subscriptions`, `Profiles`:
  the models.
- `Store`: the database object.
- `BundleOps` and `Saves`: the in-place model operations.
- `Serializers`: the serializer checks.
- `Lending`: the state changes of borrow, return and mark-lost, as
  functions.
- `ApiViews` and `CirculationViews`: the two sets of request handlers.
- `OverdueSweep`: the management command.

Status values: `Books.BookStatus` covers every status the code assigns to a
copy.
- NORMAL, BORROWED, BOOKED, WRITTEN_OFF and IN_BUNDLE are the choices
  books/models.py declares.
- LOST is named by api/views.py.
- OVERDUE is named by circulation/management/commands/check_overdue.py.

`BorrowRecord` is used by the handlers but defined in no file of the
repository. Its fields come from the places that use it: the item lent (a
copy or a bundle), the borrower, an ACTIVE/RETURNED/LOST status, the
borrowed, due and returned instants, and the notes. The per-borrower
`borrow_limit` the borrow handlers read is not declared on `Profile`; it is
modelled as a natural-number field of the profile.

## Model

| member | source | states |
|---|---|---|
| Text.LStrip | api/views.py:177 | the result is the longest suffix of the input that does not start with Python whitespace; everything dropped is whitespace |
| Text.RStrip | api/views.py:177 | the result is the longest prefix that does not end with whitespace; everything dropped is whitespace |
| Text.StripJoin | api/views.py:177 | stripping `a + b`, where `a` ends in a non-space character, strips only the front of `a` and the back of `b` |
| Text.Upper | bundles/models.py:53 | upper-casing keeps the length and maps each character independently |
| Text.UpperIdempotent | bundles/models.py:53 | an upper-cased string has no lower-case letter and upper-casing it again changes nothing |
| Text.Decimal | subscriptions/models.py:16 | `str(n)` is a non-empty run of decimal digits with no leading zero unless n is 0 |
| Text.DecimalRoundTrip | subscriptions/models.py:16 | reading the digits of `str(n)` back gives n |
| Books.Code | books/models.py:23-28 | the five declared statuses have a three-letter stored value; LOST and OVERDUE, which the code assigns but the choices do not declare, have none |
| Books.DeclaredDomain | books/models.py:23-28 | the declared status domain has exactly five values, with pairwise distinct codes |
| Books.NewBook | books/models.py:48-52 | a new copy's status is NORMAL and it carries the given name and codes; the serializer's create path builds its copy with it |
| Books.ValidateNewBook | books/models.py:31-47 | a copy passes iff its name is not blank and at most 200 characters, its ISBN is not blank, at most 13 characters and unused, and its NL code is at most 20 characters, matches `^NL\d+$` (ASCII digits, an optional final line feed) and is unused |
| Books.InsertKeepsCodesUnique | books/models.py:32-47 | inserting a copy that passed validation keeps both codes unique |
| Books.CodesKept | books/models.py:32-39 | changing anything but the codes keeps them unique |
| Books.NlPatternExamples | books/models.py:40-45 | "NL1", "NL0042" and "NL7" followed by one line feed match the pattern; "NL", "nl1", "NL1a", "NL" with a line feed, and "NL7" with two line feeds do not |
| Bundles.AsList | bundles/models.py:78-79 | a single book becomes a one-element list, and a list is kept as it is |
| Bundles.SavedCode | bundles/models.py:51-54 | the saved code has the input's length and is already upper case |
| Bundles.InBundleMembers | bundles/models.py:106-108 | the set holds exactly the members whose status is IN_BUNDLE |
| Bundles.AvailableBooksCount | bundles/models.py:105-108 | the count is the number of members whose status is IN_BUNDLE, and never exceeds the member count |
| Bundles.IsAvailable | bundles/models.py:110-116 | an available bundle is NORMAL, has at least one member, and every member is a stored copy that is IN_BUNDLE (the converse is `AvailableIffAllInBundle`) |
| Bundles.AvailableIffAllInBundle | bundles/models.py:110-116 | `is_available` holds iff the bundle is NORMAL, has at least one member, and every member is IN_BUNDLE |
| Bundles.AddableBooks | bundles/models.py:81-85 | the valid books are exactly the given books that are neither BORROWED nor WRITTEN_OFF |
| Bundles.MarkInBundle | bundles/models.py:56-59 | every current member becomes IN_BUNDLE and every other copy is unchanged |
| Bundles.ResetFreed | bundles/models.py:61-70 | each given copy listed by at most one bundle becomes NORMAL; every other copy is unchanged |
| Bundles.AddSemantics | bundles/models.py:72-88 | BORROWED or WRITTEN_OFF books are never added and every other given book is; once anything is added every member, old or new, is IN_BUNDLE; the bundle's own status and code never change |
| Bundles.AddMakesAvailable | bundles/models.py:82-88 | adding at least one eligible book to a NORMAL bundle makes it available |
| Bundles.BorrowedCopySkipped | bundles/models.py:81-85 | offering a BORROWED and a NORMAL copy to an empty bundle adds only the NORMAL one; the BORROWED one stays BORROWED and the bundle is available |
| Bundles.RemoveFreesLastMembership | bundles/models.py:66-70 | removing a copy that only this bundle lists makes it NORMAL and takes it out of the bundle |
| Bundles.RemoveKeepsSharedStatus | bundles/models.py:66-70 | removing a copy that another bundle still lists leaves it as it was |
| Bundles.RemoveKeepsRemainingAvailable | bundles/models.py:90-99 | an available bundle stays available after a removal while at least one member remains |
| Bundles.StrayRemovalResets | bundles/models.py:125-128 | as written, a copy offered for removal from a bundle that does not list it becomes NORMAL if at most one bundle lists it |
| Bundles.StrayRemovalBreaksOtherBundle | bundles/models.py:125-128 | the concrete case: an available bundle stops being available when its only member is "removed" from another bundle |
| Bundles.RemoveIntendedSparesOthers | bundles/models.py:61-70 | the intended removal leaves copies outside the bundle alone; it frees the members no other bundle lists and keeps the status of members another bundle lists |
| Bundles.ResetNothing | bundles/models.py:130-132 | the post-clear reset over the now-empty membership changes no copy |
| Bundles.ClearLeavesInBundle | bundles/models.py:101-103 | as written, after a clear the bundle is empty and each former member is still IN_BUNDLE |
| Bundles.ClearIntendedFrees | bundles/models.py:130-132 | the intended clear empties the bundle, frees exactly the former members no other bundle lists, and leaves every other copy alone |
| Bundles.PreClearReset | bundles/models.py:130-132 | resetting the members before the clear gives the intended cleared state |
| BundleOps.SaveBundle | bundles/models.py:51-54 | the code is stored upper-cased; a code another bundle already has is refused with nothing changed; stored members are kept |
| BundleOps.SaveTwiceSameCode | bundles/models.py:51-54 | saving twice stores the same code as saving once |
| BundleOps.UpdateBooksStatus | bundles/models.py:56-59 | the copies become `MarkInBundle` of the current members; the database stays consistent |
| BundleOps.RemoveBooksStatus | bundles/models.py:61-70 | the copies become `ResetFreed` of the given copies, or of the current members when none are given |
| BundleOps.ResetEach | bundles/models.py:67-70 | the loop, one copy at a time, ends in the `ResetFreed` state |
| BundleOps.OnBooksChanged | bundles/models.py:118-132 | post_add marks every member IN_BUNDLE; pre_remove resets the passed existing copies; post_clear resets over the remaining members; every other action changes nothing |
| BundleOps.AddBooks | bundles/models.py:72-88 | the new copies and bundle are `AddResult` (see `AddSemantics`); other bundles are unchanged |
| BundleOps.RemoveBooks | bundles/models.py:90-99 | the new copies and bundle are `RemoveResult` as written, with the reset before the removal; other bundles are unchanged |
| BundleOps.ClearBooks | bundles/models.py:101-103 | the bundle is emptied and, as written, no copy changes |
| BundleOps.RemoveBooksIntended | bundles/models.py:125-128 | corrected removal: the new state is `RemoveIntended` |
| BundleOps.ClearBooksIntended | bundles/models.py:130-132 | corrected clear: the new state is `ClearIntended` |
| Records.FirstActiveFor | api/views.py:163-166 | None iff the copy has no ACTIVE record; otherwise the position of its first ACTIVE record |
| Records.ActiveCount | api/serializers.py:103-106 | the count is 0 iff the borrower has no ACTIVE record, and never exceeds the number of records |
| Records.ActiveCountAppend | api/views.py:135-142 | appending a record adds one to a borrower's count exactly when it is an ACTIVE record of theirs |
| Records.ActiveCountClose | api/views.py:175-178 | replacing an ACTIVE record of the borrower by an inactive one lowers their count by one |
| Records.ReturnNotes | api/views.py:177 | the new notes are no longer than the old notes, the label and the added text together, and, when not empty, neither start nor end with whitespace |
| Records.ReturnNotesKeepPrior | api/views.py:177 | the new notes keep the earlier notes in front, left-stripped, then "\nReturn notes:" and the right-stripped new text; blank earlier notes vanish with the line break |
| Records.NewRecord | api/views.py:131-142 | the created record is ACTIVE for that copy and borrower, has no return date, keeps the notes, is borrowed at the second clock reading and is due 30 days after the first |
| Records.ReturnedRecord | api/views.py:175-178 | the record is RETURNED at `now`, with item, borrower and dates kept, and its notes are `ReturnNotes` of the old notes and the new text |
| Borrowings.CleanBase | circulation/models.py:32-34 | passes iff there is no return date or it is not before the borrow date |
| Borrowings.ReturnDateBoundary | circulation/models.py:32-34 | a return at the borrow instant passes; one instant earlier is refused |
| Borrowings.SaveStatus | circulation/models.py:36-42 | a return date forces RETURNED; without one, any status other than BORROWED is kept |
| Borrowings.SaveStatusSettles | circulation/models.py:36-42 | settling is idempotent; a settled loan is active iff it has no return date and was active; BORROWED turns OVERDUE iff now is strictly past due |
| Borrowings.IsActive | circulation/models.py:47-49 | a loan is active iff it is neither RETURNED nor CANCELLED |
| Borrowings.DaysOverdue | circulation/models.py:51-55 | 0 when inactive or not past due; otherwise d whole days with d·day ≤ now − due < (d+1)·day |
| Borrowings.DaysOverdueMonotone | circulation/models.py:51-55 | days overdue never decrease as time passes |
| Borrowings.CountOpen | circulation/models.py:79-83 | 0 iff no PENDING or BORROWED loan of that kind and user is stored |
| Borrowings.OverdueNotCounted | circulation/models.py:79-83 | an OVERDUE loan does not change the count the limit uses |
| Borrowings.CleanItem | circulation/models.py:70-101 | a book loan passes iff the copy is NORMAL or BOOKED; a bundle loan passes iff the bundle is available |
| Borrowings.CleanAsWritten | circulation/models.py:68-113 | as written: passes iff the base check and the item pass, the user has the right plan, and all their stored open loans of that kind, this loan's own row included, are fewer than the plan's maximum |
| Borrowings.Clean | circulation/models.py:68-113 | corrected validation: passes iff the base check and the item pass, the user has the right plan, and their other open loans of that kind are fewer than the plan's maximum |
| Borrowings.CleanAgreesOnNewLoans | circulation/models.py:78-84 | for a loan never stored, the corrected validation equals the one written in the source |
| Borrowings.SelfCountedAtLimit | circulation/models.py:78-84 | as written, re-saving the stored loan that filled a one-book plan is refused; corrected, it passes |
| Subscriptions.DurationLabelShape | subscriptions/models.py:15-16 | the label is the decimal month count, which reads back as the count, then " month"; it ends in "s" iff the count exceeds 1 |
| Subscriptions.DurationLabel | subscriptions/models.py:15-16 | the label is longer than " month" and ends in "s" iff the plan lasts more than one month |
| Subscriptions.PlanMonths | subscriptions/models.py:92-97 | the running maximum is at least each selected plan's duration, and is one of them or 0 |
| Subscriptions.DefaultEndCoversPlans | subscriptions/models.py:99-100 | a given end date is kept; a default one is no earlier than start plus any selected plan's months |
| Subscriptions.CleanResult | subscriptions/models.py:88-113 | passes iff a plan is selected and no stored ACTIVE subscription of the user, other than this row, overlaps strictly; the result carries the filled-in end date |
| Subscriptions.Clean | subscriptions/models.py:88-113 | the step-by-step `clean` returns `CleanResult` |
| Subscriptions.SaveKeepsDisjoint | subscriptions/models.py:103-113 | storing a subscription that passed `clean` keeps keys unique and ACTIVE subscriptions of a user non-overlapping |
| Subscriptions.IsActive | subscriptions/models.py:119-124 | an `is_active` subscription is ACTIVE with start no later than end; before its start or after its end it is not `is_active` |
| Profiles.Age | users/models.py:14-19 | None iff there is no birthday; otherwise the anniversary for the age has passed today and the next one has not |
| Profiles.AgeIsCompletedYears | users/models.py:14-19 | any year count whose anniversary has passed and whose next has not is the age |
| Profiles.ActiveSubscription | users/models.py:21-28 | None iff no ACTIVE subscription has start ≤ now < end; otherwise one with the latest start, the first in table order on ties |
| Profiles.ActiveSubscriptionUnique | users/models.py:21-28 | without overlaps, any subscription in the window is the active one |
| Profiles.WindowImpliesIsActive | subscriptions/models.py:119-124 | a subscription in the profile's window is `is_active` |
| Profiles.EndInstantExcluded | users/models.py:24-28 | at its end instant a subscription is still `is_active` but no longer the active subscription |
| Profiles.HasActiveFreePlan | users/models.py:30-34 | holding implies some ACTIVE subscription of the user in the window carries a free plan |
| Profiles.HasActiveBundlePlan | users/models.py:36-40 | holding implies some ACTIVE subscription of the user in the window carries a bundle plan |
| Profiles.MaxBooksAllowed | users/models.py:42-46 | 0 without an active free plan |
| Profiles.MaxBundlesAllowed | users/models.py:48-52 | 0 without an active bundle plan |
| Profiles.EntitlementsFromWindow | users/models.py:30-52 | without overlaps, the subscription in the window decides both plan flags and both maxima; with none, there are no plans and both maxima are 0 |
| Profiles.ActiveBorrows | users/models.py:54-57 | exactly the borrower's ACTIVE records, as many as `ActiveCount` |
| Profiles.BorrowedBooks | users/models.py:59-62 | exactly the copies some active record lends |
| Profiles.BorrowedBundles | users/models.py:64-67 | exactly the bundles some active record lends |
| Profiles.BorrowedPartition | users/models.py:59-67 | the two lists together account for every active record |
| Profiles.CanBorrow | users/models.py:69-73 | holds iff the borrower has fewer than five active borrows |
| Profiles.CanBorrowAtLimit | users/models.py:69-73 | with five ACTIVE records `can_borrow` fails, and closing one makes room again |
| Profiles.HasOverdueItems | users/models.py:75-81 | a borrower with an overdue item has at least one ACTIVE record |
| Profiles.OverdueStaysOverdue | users/models.py:75-81 | with the records unchanged, an overdue item stays overdue at every later instant |
| Profiles.OverdueBoundary | users/models.py:75-81 | a record due exactly now is not overdue; one instant later it is |
| Store.DeleteKeepsConsistent | circulation/models.py:59-63 | deleting a copy no record or loan refers to, with its bundle memberships, keeps the database consistent |
| Saves.SaveLoan | circulation/models.py:36-45 | corrected save (see the first finding): the status is settled at `now`, then validated by `Borrowings.Clean`, which leaves the loan's own stored row out of the limit count; a loan that fails is not written; one that passes is written under its own key or a fresh one |
| Saves.StoredLoansKeys | circulation/models.py:36-45 | writing a loan keeps every row keyed with unique keys, and adds nothing but the written loan |
| Saves.SaveSubscription | subscriptions/models.py:115-117 | corrected save (see the findings): the end date is filled in before any check, and the result is `CleanResult`; a subscription that fails is never stored; one that passes is stored, and the database stays consistent |
| Saves.SaveSubscriptionAsWritten | subscriptions/models.py:115-117 | as written, a subscription without an end date is refused by the field check, since `end_date` (line 69) admits no null; with one, the outcome is `CleanResult` |
| Saves.DefaultEndNeverSaved | subscriptions/models.py:99-117 | a user's first subscription with a plan and no end date passes `clean`, which gives it the default end date, yet the save as written refuses it |
| Saves.SaveAddsOnlyCleaned | subscriptions/models.py:115-117 | after a save every row was there before or is the cleaned subscription |
| Serializers.ValidateNlCode | api/serializers.py:62-65 | a code is refused iff some copy already has it; otherwise it comes back unchanged |
| Serializers.ValidatedCodeStaysUnique | api/serializers.py:62-65 | creating a copy (`NewBook`) with a code that passed keeps NL codes unique, and the new copy is NORMAL |
| Serializers.ValidateBorrow | api/serializers.py:86-113 | passes iff the copy and the profile exist, the copy is NORMAL, and the ACTIVE count is below the limit; a missing copy is reported before a missing profile |
| Serializers.LimitIsExclusive | api/serializers.py:108-111 | a borrower whose ACTIVE count equals their limit is refused |
| Serializers.GetCurrentBorrower | api/serializers.py:47-55 | None iff the copy has no ACTIVE record; otherwise the id, username and due date of its first ACTIVE record's borrower |
| Lending.BorrowState | api/views.py:131-146 | after a borrow the same copies exist, the copy is BORROWED, earlier records are kept, and one record is appended that is ACTIVE for the copy and the borrower |
| Lending.BorrowAddsOneActive | api/views.py:131-146 | a borrow makes the copy BORROWED, changes no other copy, keeps every earlier record, and appends exactly one record, `NewRecord`, which raises the borrower's ACTIVE count by one |
| Lending.ReturnState | api/views.py:174-182 | after a return the same copies exist, the copy is NORMAL, no record is added or dropped, and the copy's first ACTIVE record is no longer ACTIVE |
| Lending.ReturnClosesFirst | api/views.py:174-182 | a return closes only the copy's first ACTIVE record, at `now`; the borrower's count drops by one, earlier notes stay in front, the copy is NORMAL and no other copy changes |
| Lending.ReturnBreaksBundles | api/views.py:180-182 | returning a copy that a bundle lists makes that bundle unavailable |
| Lending.MarkLostState | api/views.py:96-103 | corrected mark-lost: the same copies exist, the copy is LOST, and no record is added or dropped |
| Lending.MarkLostTouchesOne | api/views.py:96-103 | only the first ACTIVE record changes, and only its status, to LOST; with none, no record changes; the copy is LOST and no count grows |
| Lending.MarkLostAsWritten | api/views.py:96-103 | as written: the copies are left exactly as they were, and the records change as in `MarkLostState` |
| Lending.MarkLostStrandsCopy | api/views.py:99-102 | as written, a BORROWED copy ends still BORROWED with no ACTIVE record; corrected, it is LOST |
| Lending.BorrowKeepsOneOpen | api/views.py:131-146 | borrowing a NORMAL copy keeps `OneOpen`: a copy with an ACTIVE record is never NORMAL, and no copy has two ACTIVE records |
| Lending.ReturnKeepsOneOpen | api/views.py:174-182 | a return keeps `OneOpen`: the record it closes was the copy's only ACTIVE one, so the copy may become NORMAL |
| Lending.MarkLostKeepsOneOpen | api/views.py:96-103 | the corrected mark-lost keeps `OneOpen` |
| Lending.StrayRemovalReopensCopy | bundles/models.py:125-128 | removing a BORROWED copy with an ACTIVE record from a bundle that does not list it makes it NORMAL and breaks `OneOpen`; the borrow check then passes for another borrower, and the borrow leaves the copy with two ACTIVE records |
| Lending.IntendedRemovalReopensCopy | bundles/models.py:61-70 | even the intended removal breaks `OneOpen`: a member that is not NORMAL but still has an ACTIVE record (an OVERDUE copy may join a bundle) becomes NORMAL when no other bundle lists it |
| ApiViews.Destroy | api/views.py:59-66 | only a NORMAL copy that no record or loan refers to is deleted, together with its memberships; otherwise nothing changes |
| ApiViews.WriteOff | api/views.py:69-84 | NORMAL becomes WRITTEN_OFF; any other status or a missing copy is refused with nothing changed |
| ApiViews.MarkLost | api/views.py:87-108 | corrected handler (see the findings; the source raises at line 102): allowed iff the copy is BORROWED or NORMAL; the new state is `MarkLostState`, with the copy LOST; `Lending.OneOpen` is kept |
| ApiViews.CreateBorrow | api/views.py:122-152 | a missing id is refused; otherwise the borrow validation decides, and a pass gives `BorrowState` and the new record, with the notes trimmed of surrounding whitespace as the serializer's character field cleans them; `Lending.OneOpen` is kept |
| ApiViews.Lend | api/views.py:127-146 | a failed validation changes nothing; a pass creates the ACTIVE record and makes the copy BORROWED; `Lending.OneOpen` is kept |
| ApiViews.ReturnBook | api/views.py:154-188 | missing id, missing copy and no ACTIVE record are refused with nothing changed; otherwise the state is `ReturnState`, with the notes trimmed of surrounding whitespace as the serializer's character field cleans them; `Lending.OneOpen` is kept |
| ApiViews.Close | api/views.py:162-182 | with no ACTIVE record nothing changes; otherwise the first one is returned and the copy becomes NORMAL; `Lending.OneOpen` is kept |
| CirculationViews.CreateBorrow | circulation/views.py:19-77 | a missing or zero id is refused before any lookup; then the same checks and state change as the API's borrow, with the notes as sent; `Lending.OneOpen` is kept |
| CirculationViews.ReturnBook | circulation/views.py:93-133 | a missing or zero id is refused; then the same lookup, check and state change as the API's return, with the notes as sent; `Lending.OneOpen` is kept |
| OverdueSweep.Selection | circulation/management/commands/check_overdue.py:11-14 | exactly the ACTIVE records due strictly before `now` |
| OverdueSweep.FirstBundle | circulation/management/commands/check_overdue.py:17-21 | the position of the first selected record that lends no copy, or the number of selected records |
| OverdueSweep.MarkedCopies | circulation/management/commands/check_overdue.py:17-21 | after the loop, exactly the copies some handled record lends are OVERDUE; nothing else about any copy changes |
| OverdueSweep.Sweep | circulation/management/commands/check_overdue.py:9-27 | corrected command (see the findings; the source raises at line 20): the copies become `Marked` over the selected records; the count is the number selected; records, and everything else, are unchanged; `Lending.OneOpen` is kept |
| OverdueSweep.MarkedKeepsOneOpen | circulation/management/commands/check_overdue.py:17-21 | marking copies OVERDUE keeps `Lending.OneOpen`: a lent copy never becomes NORMAL |
| OverdueSweep.MarkCopy | circulation/management/commands/check_overdue.py:19-21 | one copy becomes OVERDUE and the database stays consistent |
| OverdueSweep.SweepIdempotent | circulation/management/commands/check_overdue.py:11-21 | a second sweep over the same selection changes no copy further |
| OverdueSweep.SelectionMatchesOverdueItems | users/models.py:75-81 | a user has overdue items iff the sweep selects one of their records |
| OverdueSweep.SweepAsWritten | circulation/management/commands/check_overdue.py:16-23 | as written: no copy ever changes, and the command succeeds, with a count of 0, only when nothing is selected |
| OverdueSweep.SweepAsWrittenMarksNothing | circulation/management/commands/check_overdue.py:20 | as written, the sweep fails at the first selected record and leaves its copy as it was; corrected, that copy is OVERDUE |

## Left out

- HTTP, JSON parsing, response bodies, status codes, permissions, DRF viewset plumbing and URL routing. A "not found" is an error outcome. A JSON body that fails to parse is not modelled.
- Admin modules, the blog, the frontend, bundles/views.py, users/views.py and the profile-creating `post_save` hook: display, rendering and signal wiring only.
- The clock. Every reading of `timezone.now()` is an integer parameter.
  - Each borrow handler reads the clock twice: once for the due date and once for the borrowed date. The model keeps two readings, `t1` and `t2`.
  - `active_subscription` (users/models.py:26-27) and `days_overdue` (circulation/models.py:53,55) each read the clock twice. Profiles.ActiveSubscription and Borrowings.DaysOverdue use a single reading.
- `relativedelta` month arithmetic is a function parameter `addMonths`. Only its monotonicity in the month count is assumed.
- Transactions, locking and races between concurrent requests: the source has none, and the model is sequential.
- `full_clean` field validation (lengths, choices, blank checks) of loans. For subscriptions only the null check on `end_date` is modelled, in Saves.SaveSubscriptionAsWritten; choices and foreign keys are not.
- Books.ValidateNewBook: `\d` is modelled as the ASCII digits, while Python's `re` also accepts other Unicode decimal digits; the field checks are modelled as one outcome, not as Django's per-field error lists.
- The bundle code's maximum length of 10 is not checked by BundleOps.SaveBundle.
- Text.Upper: upper-cases ASCII letters only; Python's `str.upper` also maps other alphabets.
- CirculationViews.CreateBorrow: ids are integers or absent, so only None and 0 are falsy; the JSON body could also carry "", false or 0.0, which `not` rejects, or a string id, which it accepts and the lookup then coerces.
- CirculationViews.ReturnBook: the same falsy-id simplification as CirculationViews.CreateBorrow.
- Serializers.ValidateBorrow: the IntegerField parsing of `book_id` and `user_id` is not modelled. Ids are integers, absent when the request leaves them out.
- ApiViews.Destroy: refuses a copy that a borrow record refers to, assuming the undeclared `BorrowRecord.book` key protects its rows as `BookBorrowing.book` does. Deleting it then fails rather than cascading.
- The order of borrow records, loans and subscriptions is table order, and "first" means first in table order. Profiles.ActiveSubscription additionally orders by descending start, as the `Subscription` Meta does.
- OverdueSweep.Sweep: a selected borrow record that lends a bundle has no copy. The command would fail with an AttributeError there, so the model stops with `NoBookOnRecord` and keeps the copies already marked.
- BundleOps.RemoveBooks, BundleOps.RemoveBooksIntended and BundleOps.ClearBooksIntended do not keep `Lending.OneOpen`. Their reset makes a member NORMAL whatever its status, even while an ACTIVE record lends it (Lending.StrayRemovalReopensCopy, Lending.IntendedRemovalReopensCopy). The source has no rule for a lent member, so the model keeps its reset and proves no invariant across it.
- Images, prices, descriptions and timestamps that no lending rule reads are not modelled.

## Findings

| source | as written | input that shows it | evidently intended | confidence | as-written member | corrected member |
|---|---|---|---|---|---|---|
| circulation/models.py:78-84 | the limit count includes the stored row of the loan being saved | a one-book plan with that loan stored as PENDING; saving it again, for example to record its return, is refused with LimitReached | count only the user's other loans, excluding its own pk as `Subscription.clean` does at subscriptions/models.py:109-110 | not executed | Borrowings.SelfCountedAtLimit | Borrowings.Clean |
| bundles/models.py:125-128 | the pre-removal reset uses every id passed to `remove`, members or not | copy 1, the only member of bundle 2, is passed to `remove_books` on bundle 1, which does not list it; it becomes NORMAL and bundle 2 stops being available | reset only the passed copies this bundle lists | not executed | Bundles.StrayRemovalBreaksOtherBundle | BundleOps.RemoveBooksIntended |
| bundles/models.py:130-132 | the post-clear reset iterates the bundle's members after the clear, which are none | a bundle whose one member is IN_BUNDLE is cleared; the copy stays IN_BUNDLE although no bundle lists it | reset the former members that no other bundle lists | not executed | Bundles.ClearLeavesInBundle | BundleOps.ClearBooksIntended |
| api/views.py:99-102 | the ACTIVE record is saved as LOST, then `Book.Status.LOST`, which the choices do not declare, raises | a BORROWED copy with one ACTIVE record; the record is LOST, the copy stays BORROWED, and no return can close it | set the copy LOST as well | not executed | Lending.MarkLostStrandsCopy | ApiViews.MarkLost |
| subscriptions/models.py:115-117 | `end_date` (line 69) admits no null and `save` runs `full_clean`, whose field check refuses the missing end date before `clean` fills it in | a user's first subscription with a free plan and no end date; `clean` alone passes and gives it start plus the plan's months, but the save raises a ValidationError | a missing end date is filled in by `clean` and the subscription stored | not executed | Saves.DefaultEndNeverSaved | Saves.SaveSubscription |
| circulation/management/commands/check_overdue.py:20 | `Book.Status.OVERDUE` is not declared, so the first selected record raises | one ACTIVE record due before now; the command fails and no copy changes | every selected record's copy becomes OVERDUE and the count is reported | not executed | OverdueSweep.SweepAsWrittenMarksNothing | OverdueSweep.Sweep |
