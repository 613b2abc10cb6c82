/** The request handlers with logic of their own: the index page's counts,
    the two loan listings, the author listing and the librarian's renewal. */
module Views {
  import opened Optional
  import opened Calendar
  import opened Collections
  import opened Models
  import opened Forms

  /** Who is asking: nobody logged in, or a user who may or may not hold the
      "can mark returned" permission. */
  datatype Caller = Anonymous | Member(user: UserId, canMarkReturned: bool)

  predicate MayMarkReturned(c: Caller) {
    c.Member? && c.canMarkReturned
  }

  /** A listing page, or the refusal sent to a caller it is not for. */
  datatype Listing<T> = Denied | Page(items: seq<T>)

  // ---------------------------------------------------------------- index

  datatype IndexPage = IndexPage(
    numBooks: nat,
    numInstances: nat,
    numAvailable: nat,
    numAuthors: nat,
    numVisits: int)

  predicate IsAvailable(b: BookInstance) {
    b.status == Available
  }

  /** The index page for the stored records and the session's visit count,
      together with the visit count the session keeps afterwards. */
  function Index(books: seq<Book>, instances: seq<BookInstance>, authors: seq<Author>,
                 visits: Option<int>): (r: (IndexPage, int))
    ensures r.0.numBooks == |books| && r.0.numInstances == |instances| && r.0.numAuthors == |authors|
    ensures r.0.numAvailable == |set i: nat | i < |instances| && instances[i].status == Available|
    ensures r.0.numAvailable <= r.0.numInstances
    ensures visits.None? ==> r.0.numVisits == 0
    ensures visits.Some? ==> r.0.numVisits == visits.value
    ensures r.1 == r.0.numVisits + 1
  {
    var available := Count(instances, IsAvailable);
    assert MatchingIndices(instances, IsAvailable)
        == set i: nat | i < |instances| && instances[i].status == Available;
    var shown := visits.GetOr(0);
    (IndexPage(|books|, |instances|, available, |authors|, shown), shown + 1)
  }

  /** Each visit shows the count the previous visit stored. */
  lemma IndexVisitsCountUp(books: seq<Book>, instances: seq<BookInstance>, authors: seq<Author>,
                           visits: Option<int>)
    ensures var first := Index(books, instances, authors, visits);
            var second := Index(books, instances, authors, Some(first.1));
            second.0.numVisits == first.0.numVisits + 1
  {
  }

  // ------------------------------------------------------------- listings

  /** `LoanedBooksByUserListView.get_queryset`: the user's copies on loan,
      by due date. */
  function LoanedByUser(instances: seq<BookInstance>, user: UserId, nullsFirst: bool)
    : (r: seq<BookInstance>)
    ensures forall b ::
      multiset(r)[b] == if b.borrower == Some(user) && b.status == OnLoan then multiset(instances)[b] else 0
    ensures SortedBy(r, InstanceOrder(nullsFirst))
    ensures forall i, j ::
      0 <= i < j < |r| && r[i].dueBack.Some? && r[j].dueBack.Some? ==>
      r[i].dueBack.value <= r[j].dueBack.value
  {
    InstanceOrderIsTotalPreorder(nullsFirst);
    var r := Sort(Filter(instances, (b: BookInstance) => b.borrower == Some(user) && b.status == OnLoan),
                  InstanceOrder(nullsFirst));
    InstanceOrderAscending(r, nullsFirst);
    r
  }

  /** `LoanedBooksAllListView.get_queryset`: every copy on loan, whoever has
      it, by due date. */
  function LoanedAll(instances: seq<BookInstance>, nullsFirst: bool): (r: seq<BookInstance>)
    ensures forall b :: multiset(r)[b] == if b.status == OnLoan then multiset(instances)[b] else 0
    ensures SortedBy(r, InstanceOrder(nullsFirst))
    ensures forall i, j ::
      0 <= i < j < |r| && r[i].dueBack.Some? && r[j].dueBack.Some? ==>
      r[i].dueBack.value <= r[j].dueBack.value
  {
    InstanceOrderIsTotalPreorder(nullsFirst);
    var r := Sort(Filter(instances, (b: BookInstance) => b.status == OnLoan), InstanceOrder(nullsFirst));
    InstanceOrderAscending(r, nullsFirst);
    r
  }

  /** A user's loans are among all loans, and every loan in the full listing
      belongs to its borrower's own listing. */
  lemma UserLoansWithinAllLoans(instances: seq<BookInstance>, user: UserId, nullsFirst: bool)
    ensures multiset(LoanedByUser(instances, user, nullsFirst)) <= multiset(LoanedAll(instances, nullsFirst))
    ensures forall b ::
      b in LoanedAll(instances, nullsFirst) && b.borrower == Some(user) ==>
      b in LoanedByUser(instances, user, nullsFirst)
  {
    var mine := LoanedByUser(instances, user, nullsFirst);
    var all := LoanedAll(instances, nullsFirst);
    assert multiset(mine) <= multiset(all) by {
      forall b: BookInstance ensures multiset(mine)[b] <= multiset(all)[b] {
        assert multiset(mine)[b] == if b.borrower == Some(user) && b.status == OnLoan then multiset(instances)[b] else 0;
        assert multiset(all)[b] == if b.status == OnLoan then multiset(instances)[b] else 0;
      }
    }
    forall b | b in all && b.borrower == Some(user)
      ensures b in mine
    {
      assert multiset(all)[b] > 0;
      assert multiset(mine)[b] == if b.borrower == Some(user) && b.status == OnLoan then multiset(instances)[b] else 0;
    }
  }

  /** The personal loans page: only for a logged-in user. */
  function LoanedBooksByUserView(caller: Caller, instances: seq<BookInstance>, nullsFirst: bool)
    : (r: Listing<BookInstance>)
    ensures r.Denied? <==> caller.Anonymous?
    ensures r.Page? ==> r.items == LoanedByUser(instances, caller.user, nullsFirst)
  {
    match caller
    case Anonymous => Denied
    case Member(user, _) => Page(LoanedByUser(instances, user, nullsFirst))
  }

  /** The page of all loans: only with the "can mark returned" permission. */
  function LoanedBooksAllView(caller: Caller, instances: seq<BookInstance>, nullsFirst: bool)
    : (r: Listing<BookInstance>)
    ensures r.Denied? <==> !MayMarkReturned(caller)
    ensures r.Page? ==> r.items == LoanedAll(instances, nullsFirst)
  {
    if MayMarkReturned(caller) then Page(LoanedAll(instances, nullsFirst)) else Denied
  }

  /** The author listing, in the default author order. */
  function AuthorListing(authors: seq<Author>): (r: seq<Author>)
    ensures multiset(r) == multiset(authors)
    ensures forall i, j :: 0 <= i < j < |r| ==> AuthorLeq(r[i], r[j])
  {
    AuthorOrderIsTotalPreorder();
    Sort(authors, AuthorLeq)
  }

  // -------------------------------------------------------------- renewal

  /** The renewal request: a POST carrying the submitted field, or any other
      method, which asks for the form. */
  datatype RenewRequest = Post(renewalDate: Option<Day>) | OtherMethod

  /** The form as rendered: fresh with a proposed date, or bound to a refused
      submission and showing its error. */
  datatype RenewForm = Proposed(initial: Day) | WithError(error: RenewalError)

  /** How far ahead the renewal form's proposed date lies. */
  const DefaultRenewalWeeks: int := 3

  /** The date the form proposes when it is first shown: three weeks ahead. */
  function ProposedRenewalDate(today: Day): (d: Day)
    ensures d - today == 21
    ensures InRenewalWindow(today, d)
  {
    AddWeeks(today, DefaultRenewalWeeks)
  }

  datatype RenewResponse =
    | RedirectToLogin
    | NotFound
    | RedirectToAllBorrowed
    | RenderRenewForm(instance: BookInstance, form: RenewForm)

  /** `get_object_or_404` by primary key: the position of the copy with id
      `pk`, if there is one. */
  function FindInstance(instances: seq<BookInstance>, pk: InstanceId): (r: Option<nat>)
    ensures r.None? <==> forall i :: 0 <= i < |instances| ==> instances[i].id != pk
    ensures r.Some? ==> r.value < |instances| && instances[r.value].id == pk
    decreases |instances|
  {
    if |instances| == 0 then None
    else if instances[0].id == pk then Some(0)
    else match FindInstance(instances[1..], pk)
      case None => None
      case Some(i) => Some(i + 1)
  }

  /** `renew_book_librarian`: returns the response and the stored copies
      afterwards. Only an accepted submission writes, and it writes only the
      due date of the copy asked for. */
  function RenewBookLibrarian(caller: Caller, instances: seq<BookInstance>, pk: InstanceId,
                              request: RenewRequest, today: Day)
    : (r: (RenewResponse, seq<BookInstance>))
    ensures |r.1| == |instances|
    ensures forall j :: 0 <= j < |instances| && r.1[j] != instances[j] ==>
      && r.0 == RedirectToAllBorrowed
      && instances[j].id == pk
      && r.1[j] == instances[j].(dueBack := r.1[j].dueBack)
    ensures r.0 == RedirectToAllBorrowed ==>
      && MayMarkReturned(caller)
      && request.Post?
      && ValidateRenewal(today, request.renewalDate).Accepted?
  {
    if !MayMarkReturned(caller) then (RedirectToLogin, instances)
    else match FindInstance(instances, pk)
      case None => (NotFound, instances)
      case Some(i) =>
        match request
        case Post(field) =>
          (match ValidateRenewal(today, field)
           case Accepted(date) =>
             (RedirectToAllBorrowed, instances[i := instances[i].(dueBack := Some(date))])
           case Rejected(err) =>
             (RenderRenewForm(instances[i], WithError(err)), instances))
        case OtherMethod =>
          (RenderRenewForm(instances[i], Proposed(ProposedRenewalDate(today))), instances)
  }

  /** A caller without the permission is refused and nothing changes. */
  lemma RenewWithoutPermission(caller: Caller, instances: seq<BookInstance>, pk: InstanceId,
                               request: RenewRequest, today: Day)
    requires !MayMarkReturned(caller)
    ensures RenewBookLibrarian(caller, instances, pk, request, today) == (RedirectToLogin, instances)
  {
  }

  /** An unknown key gives "not found" and nothing changes. */
  lemma RenewMissingKey(caller: Caller, instances: seq<BookInstance>, pk: InstanceId,
                        request: RenewRequest, today: Day)
    requires MayMarkReturned(caller)
    requires forall i :: 0 <= i < |instances| ==> instances[i].id != pk
    ensures RenewBookLibrarian(caller, instances, pk, request, today) == (NotFound, instances)
  {
  }

  /** An accepted date becomes the copy's due date; its status, borrower,
      book, imprint and id stay, as does every other copy. The renewed copy
      is not overdue today. */
  lemma RenewAccepted(caller: Caller, instances: seq<BookInstance>, i: nat, date: Day, today: Day)
    requires MayMarkReturned(caller)
    requires i < |instances|
    requires FindInstance(instances, instances[i].id) == Some(i)
    requires today <= date <= today + 28
    ensures var r := RenewBookLibrarian(caller, instances, instances[i].id, Post(Some(date)), today);
      && r.0 == RedirectToAllBorrowed
      && |r.1| == |instances|
      && r.1[i].dueBack == Some(date)
      && r.1[i].status == instances[i].status
      && r.1[i].borrower == instances[i].borrower
      && r.1[i].book == instances[i].book
      && r.1[i].imprint == instances[i].imprint
      && r.1[i].id == instances[i].id
      && (forall j :: 0 <= j < |instances| && j != i ==> r.1[j] == instances[j])
      && !IsOverdue(r.1[i], today)
  {
  }

  /** A refused submission re-shows the form with its error and changes
      nothing. */
  lemma RenewRejected(caller: Caller, instances: seq<BookInstance>, pk: InstanceId,
                      field: Option<Day>, today: Day)
    requires MayMarkReturned(caller)
    requires FindInstance(instances, pk).Some?
    requires ValidateRenewal(today, field).Rejected?
    ensures var r := RenewBookLibrarian(caller, instances, pk, Post(field), today);
      && r.1 == instances
      && r.0.RenderRenewForm?
      && r.0.instance.id == pk
      && r.0.form == WithError(ValidateRenewal(today, field).error)
  {
  }

  /** Asking for the form proposes a date three weeks ahead, a date the form
      would accept, and changes nothing. */
  lemma RenewFormProposal(caller: Caller, instances: seq<BookInstance>, pk: InstanceId, today: Day)
    requires MayMarkReturned(caller)
    requires FindInstance(instances, pk).Some?
    ensures var r := RenewBookLibrarian(caller, instances, pk, OtherMethod, today);
      && r.1 == instances
      && r.0.RenderRenewForm?
      && r.0.form == Proposed(today + 21)
      && ValidateRenewal(today, Some(r.0.form.initial)) == Accepted(today + 21)
  {
  }
}
