/** The checks and the read-only lookup of api/serializers.py: the NL-code
    uniqueness check of book creation, the borrow validation, and the
    current borrower shown with a copy. */
module Serializers {
  import opened Common
  import Books
  import Records
  import Profiles

  /** `BookCreateSerializer.validate_nl_code`: a code some copy already has is
      refused; any other code is passed through unchanged. */
  function ValidateNlCode(books: map<BookId, Books.Book>, code: string): (r: Result<string>)
    ensures r.Ok? <==> !Books.NlCodeInUse(books, code)
    ensures r.Ok? ==> r.value == code
    ensures r.Err? ==> r.error == DuplicateCode
  {
    if exists k | k in books :: books[k].nlCode == code then Err(DuplicateCode) else Ok(code)
  }

  /** A copy created with a code that passed the check keeps NL codes unique,
      and the new copy starts NORMAL. */
  lemma ValidatedCodeStaysUnique(books: map<BookId, Books.Book>, id: BookId, name: string, isbn: string, code: string)
    requires id !in books && ValidateNlCode(books, code).Ok?
    requires Books.UniqueNlCodes(books)
    ensures var nb := books[id := Books.NewBook(name, isbn, code)];
      Books.UniqueNlCodes(nb) && nb[id].status == Books.Normal
  {
    var nb := books[id := Books.NewBook(name, isbn, code)];
    forall j, k | j in nb && k in nb && j != k
      ensures nb[j].nlCode != nb[k].nlCode
    {
      if j == id {
        assert nb[k] == books[k];
      } else if k == id {
        assert nb[j] == books[j];
      }
    }
  }

  /** `BorrowCreateSerializer.validate`: the copy is looked up before the
      profile; then the copy must be NORMAL; then the borrower's ACTIVE
      records must be fewer than their limit (reaching it exactly blocks). */
  function ValidateBorrow(books: map<BookId, Books.Book>, profiles: map<UserId, Profiles.Profile>,
                          records: seq<Records.BorrowRecord>, book: BookId, user: UserId): (r: Outcome)
    ensures r.Pass? <==>
      && book in books && user in profiles
      && books[book].status == Books.Normal
      && Records.ActiveCount(records, user) < profiles[user].borrowLimit
    ensures book !in books ==> r == Fail(BookNotFound)
    ensures book in books && user !in profiles ==> r == Fail(ProfileNotFound)
    ensures r.Fail? ==> r.error in {BookNotFound, ProfileNotFound, NotAvailable, LimitReached}
  {
    if book !in books then Fail(BookNotFound)
    else if user !in profiles then Fail(ProfileNotFound)
    else if books[book].status != Books.Normal then Fail(NotAvailable)
    else if Records.ActiveCount(records, user) >= profiles[user].borrowLimit then Fail(LimitReached)
    else Pass
  }

  /** A borrower with a limit of zero can never borrow; one whose limit is
      exactly their number of ACTIVE records is refused. */
  lemma LimitIsExclusive(books: map<BookId, Books.Book>, profiles: map<UserId, Profiles.Profile>,
                         records: seq<Records.BorrowRecord>, book: BookId, user: UserId)
    requires user in profiles && Records.ActiveCount(records, user) == profiles[user].borrowLimit
    ensures ValidateBorrow(books, profiles, records, book, user).Fail?
  {
  }

  /** What `get_current_borrower` shows: the user id, username and due date. */
  datatype CurrentBorrower = CurrentBorrower(id: UserId, username: string, due: Instant)

  /** `BookSerializer.get_current_borrower`: the borrower of the copy's first
      ACTIVE record, or None when it has none. */
  function GetCurrentBorrower(records: seq<Records.BorrowRecord>, profiles: map<UserId, Profiles.Profile>, book: BookId): (r: Option<CurrentBorrower>)
    requires forall i | 0 <= i < |records| :: records[i].borrower in profiles
    ensures r.None? <==> forall i | 0 <= i < |records| :: !Records.IsActiveFor(records[i], book)
    ensures r.Some? ==> exists i | 0 <= i < |records| ::
      && Records.IsActiveFor(records[i], book)
      && (forall j | 0 <= j < i :: !Records.IsActiveFor(records[j], book))
      && var p := profiles[records[i].borrower];
         r.value == CurrentBorrower(p.user, p.username, records[i].dueDate)
  {
    match Records.FirstActiveFor(records, book)
    case None => None
    case Some(i) =>
      var p := profiles[records[i].borrower];
      Some(CurrentBorrower(p.user, p.username, records[i].dueDate))
  }
}
