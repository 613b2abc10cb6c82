/** The catalogue's records: genres, languages, authors, books and the
    individually borrowable copies of books, with their derived properties
    and display strings. */
module Models {
  import opened Optional
  import opened Calendar
  import opened Strings
  import opened Collections

  /** A library user, by primary key. */
  type UserId = nat

  /** A copy's primary key, in its textual (UUID) form. */
  type InstanceId = string

  /** The loan status of a copy. `Blank` is the empty code the column admits
      because it is declared `blank=True`. */
  datatype LoanStatus = OnHold | OnLoan | Available | Reserved | Blank

  /** The one-character code a status is stored as. */
  function StatusCode(s: LoanStatus): (c: string)
    ensures |c| <= 1
    ensures c == "" <==> s == Blank
  {
    match s
    case OnHold => "d"
    case OnLoan => "o"
    case Available => "a"
    case Reserved => "r"
    case Blank => ""
  }

  /** The status a stored code stands for; `None` for a code outside the
      declared choices. */
  function ParseStatus(c: string): Option<LoanStatus> {
    if c == "d" then Some(OnHold)
    else if c == "o" then Some(OnLoan)
    else if c == "a" then Some(Available)
    else if c == "r" then Some(Reserved)
    else if c == "" then Some(Blank)
    else None
  }

  /** Every status is stored as a code that reads back as that status. */
  lemma StatusCodeRoundTrip(s: LoanStatus)
    ensures ParseStatus(StatusCode(s)) == Some(s)
  {
  }

  /** The codes that read back as a status are exactly the declared choices
      and the blank code, and each reads back as the status it encodes. */
  lemma ParseStatusAcceptsOnlyChoices(c: string)
    ensures ParseStatus(c).Some? <==> c in {"d", "o", "a", "r", ""}
    ensures ParseStatus(c).Some? ==> StatusCode(ParseStatus(c).value) == c
  {
  }

  /** The status a copy gets when none is given. */
  const DefaultStatus: LoanStatus := OnHold

  datatype Genre = Genre(name: string)

  datatype Language = Language(name: string)

  datatype Author = Author(
    firstName: string,
    lastName: string,
    dateOfBirth: Option<Day>,
    dateOfDeath: Option<Day>)

  /** A title. A deleted author or language leaves `None` behind. `genres`
      lists the genre relation in the order the database returns it. */
  datatype Book = Book(
    title: string,
    author: Option<Author>,
    summary: string,
    isbn: string,
    genres: seq<Genre>,
    language: Option<Language>)

  /** A borrowable copy of a book. A deleted book or user leaves `None` behind. */
  datatype BookInstance = BookInstance(
    id: InstanceId,
    book: Option<Book>,
    imprint: string,
    dueBack: Option<Day>,
    borrower: Option<UserId>,
    status: LoanStatus)

  /** A copy as it is first created: only its key, book and imprint given. */
  function NewBookInstance(id: InstanceId, book: Option<Book>, imprint: string): (b: BookInstance)
    ensures b.id == id && b.book == book && b.imprint == imprint
    ensures b.status == OnHold && StatusCode(b.status) == "d"
    ensures b.dueBack.None? && b.borrower.None?
    ensures forall today :: !IsOverdue(b, today)
  {
    BookInstance(id, book, imprint, None, None, DefaultStatus)
  }

  /** Whether the copy's due date has passed. A copy without a due date is
      never overdue. */
  function IsOverdue(b: BookInstance, today: Day): (overdue: bool)
    ensures overdue <==> b.dueBack.Some? && today > b.dueBack.value
  {
    match b.dueBack
    case Some(due) => today > due
    case None => false
  }

  lemma OverdueExactly(b: BookInstance, today: Day)
    ensures IsOverdue(b, today) <==> b.dueBack.Some? && b.dueBack.value < today
    ensures b.dueBack.None? ==> !IsOverdue(b, today)
    ensures b.dueBack == Some(today) ==> !IsOverdue(b, today)
  {
  }

  /** Once overdue, a copy stays overdue as days pass. */
  lemma OverdueStaysOverdue(b: BookInstance, today: Day, later: Day)
    requires today <= later
    requires IsOverdue(b, today)
    ensures IsOverdue(b, later)
  {
  }

  /** `Author.__str__`: "last, first". */
  function AuthorString(a: Author): (r: string)
    ensures |r| == |a.lastName| + |Separator| + |a.firstName|
    ensures r[..|a.lastName|] == a.lastName
    ensures r[|a.lastName|..|a.lastName| + |Separator|] == Separator
    ensures r[|a.lastName| + |Separator|..] == a.firstName
  {
    a.lastName + ", " + a.firstName
  }

  /** When neither name contains ", ", the display splits back into the
      last and the first name. */
  lemma AuthorStringSplits(a: Author)
    requires !ContainsSeparator(a.lastName) && !ContainsSeparator(a.firstName)
    ensures Split(AuthorString(a)) == [a.lastName, a.firstName]
  {
    assert AuthorString(a) == Join([a.lastName, a.firstName]);
    SplitJoin([a.lastName, a.firstName]);
  }

  /** `BookInstance.__str__`: "title [status] (id)". With no book the Python
      method raises on the missing title; that is `None` here. */
  function InstanceString(b: BookInstance): (r: Option<string>)
    ensures r.Some? <==> b.book.Some?
    ensures r.Some? ==>
      var t, c := b.book.value.title, StatusCode(b.status);
      && |r.value| == |t| + |c| + |b.id| + 6
      && r.value[..|t|] == t
      && r.value[|t|..|t| + 2] == " ["
      && r.value[|t| + 2..|t| + 2 + |c|] == c
      && r.value[|t| + 2 + |c|..|t| + 5 + |c|] == "] ("
      && r.value[|t| + 5 + |c|..|r.value| - 1] == b.id
      && r.value[|r.value| - 1] == ')'
  {
    match b.book
    case None => None
    case Some(book) => Some(book.title + " [" + StatusCode(b.status) + "] (" + b.id + ")")
  }

  /** The most genres `display_genre` shows. */
  const MaxDisplayedGenres: nat := 6

  function GenreNames(gs: seq<Genre>): (names: seq<string>)
    ensures |names| == |gs|
    ensures forall i :: 0 <= i < |gs| ==> names[i] == gs[i].name
  {
    seq(|gs|, i requires 0 <= i < |gs| => gs[i].name)
  }

  /** The genres `display_genre` shows: at most the first six. */
  function DisplayedGenres(book: Book): (gs: seq<Genre>)
    ensures |gs| <= MaxDisplayedGenres
    ensures |gs| == if |book.genres| < MaxDisplayedGenres then |book.genres| else MaxDisplayedGenres
    ensures gs <= book.genres
  {
    if |book.genres| <= MaxDisplayedGenres then book.genres
    else book.genres[..MaxDisplayedGenres]
  }

  /** `Book.display_genre`: the names of the first six genres, joined by ", ". */
  function DisplayGenre(book: Book): (r: string)
    ensures r == Join(GenreNames(book.genres[..|DisplayedGenres(book)|]))
    ensures |book.genres| == 0 ==> r == ""
    ensures |book.genres| > 0 ==> book.genres[0].name <= r
  {
    var names := GenreNames(DisplayedGenres(book));
    assert DisplayedGenres(book) == book.genres[..|DisplayedGenres(book)|];
    JoinStartsWithFirst(names);
    Join(names)
  }

  /** The rendered genre list splits back into the names of the first (at
      most six) genres when the names themselves contain no ", ", and is
      empty for a book without genres. */
  lemma DisplayGenreLists(book: Book)
    requires forall g :: g in book.genres ==> !ContainsSeparator(g.name)
    ensures |book.genres| == 0 ==> DisplayGenre(book) == ""
    ensures |book.genres| > 0 ==> Split(DisplayGenre(book)) == GenreNames(DisplayedGenres(book))
    ensures |book.genres| > 0 ==> |Split(DisplayGenre(book))| <= MaxDisplayedGenres
  {
    var gs := DisplayedGenres(book);
    if |book.genres| > 0 {
      assert forall i :: 0 <= i < |gs| ==> gs[i] in book.genres;
      SplitJoin(GenreNames(gs));
    }
  }

  /** Genres past the sixth never show: two books that agree on the genres
      shown render the same list, however many more genres either has. */
  lemma DisplayGenreIgnoresTail(b1: Book, b2: Book)
    requires DisplayedGenres(b1) == DisplayedGenres(b2)
    ensures DisplayGenre(b1) == DisplayGenre(b2)
  {
  }

  /** The default author order: by last name, then first name. */
  predicate AuthorLeq(x: Author, y: Author) {
    if x.lastName == y.lastName then StrLeq(x.firstName, y.firstName)
    else StrLeq(x.lastName, y.lastName)
  }

  lemma AuthorOrderIsTotalPreorder()
    ensures TotalPreorder(AuthorLeq)
  {
    forall x: Author, y: Author
      ensures AuthorLeq(x, y) || AuthorLeq(y, x)
    {
      StrLeqTotal(x.lastName, y.lastName);
      StrLeqTotal(x.firstName, y.firstName);
    }
    forall x: Author, y: Author, z: Author | AuthorLeq(x, y) && AuthorLeq(y, z)
      ensures AuthorLeq(x, z)
    {
      if x.lastName == y.lastName && y.lastName == z.lastName {
        StrLeqTransitive(x.firstName, y.firstName, z.firstName);
      } else if x.lastName == y.lastName || y.lastName == z.lastName {
      } else {
        StrLeqTransitive(x.lastName, y.lastName, z.lastName);
        if x.lastName == z.lastName {
          StrLeqAntisymmetric(x.lastName, y.lastName);
        }
      }
    }
  }

  /** The order of two optional due dates, with the database deciding whether
      copies without a due date come first (`nullsFirst`) or last. */
  predicate DueLeq(nullsFirst: bool, a: Option<Day>, b: Option<Day>) {
    match (a, b)
    case (Some(x), Some(y)) => x <= y
    case (None, None) => true
    case (None, Some(_)) => nullsFirst
    case (Some(_), None) => !nullsFirst
  }

  /** The default copy order: by due date. */
  function InstanceOrder(nullsFirst: bool): (BookInstance, BookInstance) -> bool {
    (a: BookInstance, b: BookInstance) => DueLeq(nullsFirst, a.dueBack, b.dueBack)
  }

  lemma InstanceOrderIsTotalPreorder(nullsFirst: bool)
    ensures TotalPreorder(InstanceOrder(nullsFirst))
  {
  }

  /** Among copies that have a due date, an order by `InstanceOrder` puts
      earlier dates first. */
  lemma InstanceOrderAscending(s: seq<BookInstance>, nullsFirst: bool)
    requires SortedBy(s, InstanceOrder(nullsFirst))
    ensures forall i, j ::
      0 <= i < j < |s| && s[i].dueBack.Some? && s[j].dueBack.Some? ==>
      s[i].dueBack.value <= s[j].dueBack.value
  {
    forall i, j | 0 <= i < j < |s| && s[i].dueBack.Some? && s[j].dueBack.Some?
      ensures s[i].dueBack.value <= s[j].dueBack.value
    {
      assert InstanceOrder(nullsFirst)(s[i], s[j]);
    }
  }
}
