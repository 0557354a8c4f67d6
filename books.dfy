/** The catalogue entry of one physical copy (books/models.py): its status
    domain, its default status and the constraints on its codes. */
module Books {
  import opened Common
  import Text

  /** Every book status the lending code refers to. The first five are the
      choices Book.Status declares in books/models.py; `Lost` is assigned by
      the mark-lost handler in api/views.py and `Overdue` by the overdue sweep
      in circulation/management/commands/check_overdue.py, although
      Book.Status declares neither. */
  datatype BookStatus = Normal | Borrowed | Booked | WrittenOff | InBundle | Lost | Overdue

  /** The statuses Book.Status declares as choices. */
  const DeclaredStatuses: set<BookStatus> := {Normal, Borrowed, Booked, WrittenOff, InBundle}

  predicate IsDeclared(s: BookStatus)
  {
    !s.Lost? && !s.Overdue?
  }

  /** The three-letter value stored in the database; the two statuses the
      choices do not declare have none. */
  function Code(s: BookStatus): (r: Option<string>)
    ensures r.Some? <==> IsDeclared(s)
    ensures r.Some? ==> |r.value| == 3
  {
    match s
    case Normal => Some("NOR")
    case Borrowed => Some("BOR")
    case Booked => Some("BOK")
    case WrittenOff => Some("WOF")
    case InBundle => Some("BUN")
    case Lost => None
    case Overdue => None
  }

  /** The declared domain has exactly five values, each with its own code. */
  lemma DeclaredDomain()
    ensures forall s :: s in DeclaredStatuses <==> IsDeclared(s)
    ensures |DeclaredStatuses| == 5
    ensures forall s, t | IsDeclared(s) && IsDeclared(t) && s != t :: Code(s) != Code(t)
  {
    var five := {Normal, Borrowed, Booked, WrittenOff};
    assert |{Normal, Borrowed}| == 2;
    assert |{Normal, Borrowed, Booked}| == 3;
    assert |five| == 4;
    assert DeclaredStatuses == five + {InBundle};
  }

  datatype Book = Book(name: string, isbn: string, nlCode: string, status: BookStatus)

  /** A new copy, with the status the model field defaults to. */
  function NewBook(name: string, isbn: string, nlCode: string): (b: Book)
    ensures b.status == Normal && IsDeclared(b.status)
    ensures b.name == name && b.isbn == isbn && b.nlCode == nlCode
  {
    Book(name, isbn, nlCode, Normal)
  }

  const IsbnMaxLength: nat := 13
  const NlCodeMaxLength: nat := 20

  const NameMaxLength: nat := 200

  /** "NL" followed by one or more ASCII digits and nothing else. */
  predicate NlDigits(s: string)
  {
    |s| >= 3 && s[0] == 'N' && s[1] == 'L' && forall i | 2 <= i < |s| :: Text.IsAsciiDigit(s[i])
  }

  /** The validator pattern `^NL\d+$` as `re.search` applies it: `$` matches
      at the end and also just before a final line feed. */
  predicate MatchesNlPattern(s: string)
  {
    NlDigits(s) || (|s| > 0 && s[|s| - 1] == '\n' && NlDigits(s[..|s| - 1]))
  }

  predicate NlCodeInUse(books: map<BookId, Book>, code: string)
  {
    exists k | k in books :: books[k].nlCode == code
  }

  predicate IsbnInUse(books: map<BookId, Book>, isbn: string)
  {
    exists k | k in books :: books[k].isbn == isbn
  }

  /** No two copies share an NL code. */
  ghost predicate UniqueNlCodes(books: map<BookId, Book>)
  {
    forall j, k | j in books && k in books && j != k :: books[j].nlCode != books[k].nlCode
  }

  /** No two copies share an ISBN. */
  ghost predicate UniqueIsbns(books: map<BookId, Book>)
  {
    forall j, k | j in books && k in books && j != k :: books[j].isbn != books[k].isbn
  }

  /** Both codes are unique across the catalogue. */
  ghost predicate UniqueCodes(books: map<BookId, Book>)
  {
    UniqueNlCodes(books) && UniqueIsbns(books)
  }

  /** The checks the field declarations impose on a new copy: the required
      name and ISBN are not blank, length limits, the NL pattern and both
      uniqueness constraints. */
  function ValidateNewBook(books: map<BookId, Book>, b: Book): (r: Outcome)
    ensures r.Pass? <==>
      0 < |b.name| <= NameMaxLength
      && 0 < |b.isbn| <= IsbnMaxLength && !IsbnInUse(books, b.isbn)
      && |b.nlCode| <= NlCodeMaxLength && MatchesNlPattern(b.nlCode) && !NlCodeInUse(books, b.nlCode)
    ensures r.Fail? && r.error == DuplicateCode ==> IsbnInUse(books, b.isbn) || NlCodeInUse(books, b.nlCode)
  {
    if |b.name| == 0 || |b.name| > NameMaxLength || |b.isbn| == 0 then Fail(InvalidField)
    else if |b.isbn| > IsbnMaxLength || |b.nlCode| > NlCodeMaxLength || !MatchesNlPattern(b.nlCode) then Fail(InvalidField)
    else if IsbnInUse(books, b.isbn) || NlCodeInUse(books, b.nlCode) then Fail(DuplicateCode)
    else Pass
  }

  /** Inserting a copy that passed validation keeps both codes unique. */
  lemma InsertKeepsCodesUnique(books: map<BookId, Book>, id: BookId, b: Book)
    requires UniqueCodes(books) && id !in books
    requires ValidateNewBook(books, b).Pass?
    ensures UniqueCodes(books[id := b])
  {
    var nb := books[id := b];
    forall j, k | j in nb && k in nb && j != k
      ensures nb[j].nlCode != nb[k].nlCode && nb[j].isbn != nb[k].isbn
    {
      if j == id {
        assert nb[k] == books[k];
      } else if k == id {
        assert nb[j] == books[j];
      }
    }
  }

  /** Two catalogues with the same copies under the same codes. */
  predicate SameCodes(a: map<BookId, Book>, b: map<BookId, Book>)
  {
    a.Keys == b.Keys && forall k | k in a :: a[k].nlCode == b[k].nlCode && a[k].isbn == b[k].isbn
  }

  /** Changing anything but the codes keeps them unique. */
  lemma CodesKept(a: map<BookId, Book>, b: map<BookId, Book>)
    requires UniqueCodes(a) && SameCodes(a, b)
    ensures UniqueCodes(b)
  {
    forall j, k | j in b && k in b && j != k
      ensures b[j].nlCode != b[k].nlCode && b[j].isbn != b[k].isbn
    {
      assert a[j].nlCode != a[k].nlCode && a[j].isbn != a[k].isbn;
    }
  }

  /** Sample codes: the pattern wants at least one digit after an upper-case
      "NL" and nothing else but one final line feed. */
  lemma NlPatternExamples()
    ensures MatchesNlPattern("NL1") && MatchesNlPattern("NL0042") && MatchesNlPattern("NL7\n")
    ensures !MatchesNlPattern("NL") && !MatchesNlPattern("nl1") && !MatchesNlPattern("NL1a")
    ensures !MatchesNlPattern("NL7\n\n") && !MatchesNlPattern("NL\n")
  {
    assert "NL1a"[3] == 'a';
    assert "NL7\n"[..3] == "NL7";
    assert "NL7\n\n"[..4] == "NL7\n" && "NL7\n"[3] == '\n';
    assert "NL\n"[..2] == "NL" && "NL\n"[2] == '\n';
  }
}
