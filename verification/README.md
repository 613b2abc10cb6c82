# Library catalogue: loans and renewals

A model of the bespoke logic of a small library-catalogue web application
(a Django project). Librarians keep books, authors, genres and languages, and
track each borrowable copy of a book (a `BookInstance`) by loan status,
borrower and due-back date. The model covers:

- the renewal form's date check (`RenewBookForm.clean_renewal_date`), which
  accepts a proposed due date only from today through four weeks ahead;
- the copy record: its one-character status code with default `d`
  (on hold), the derived `is_overdue` flag, and the display strings of copies,
  authors and a book's genre list;
- the default orderings (authors by last then first name, copies by due date);
- the queries behind the index page and the two loan listings
  (a user's own copies on loan, and all copies on loan, each by due date);
- the librarian's renewal handler (`renew_book_librarian`).

Dates are integer day numbers (`Calendar.Day`) and "today" is a parameter, so
every operation is a pure function. The stored copies are a sequence of
`BookInstance` values; a write returns the new sequence. Everything is
immutable datatypes and functions. Modules follow the files of the application:
`Models` (catalog/models.py), `Forms` (catalog/forms.py, together with the
form's validity test `form.is_valid()` that catalog/views.py:87 calls,
modelled as `Forms.ValidateRenewal`), `Views` (catalog/views.py), over the
helpers `Optional`, `Calendar`, `Strings` (the ", " join and its inverse,
code-point string order) and `Collections` (filter, count, insertion sort).

Two facts about the code that the model keeps:

- `renew_book_librarian` (catalog/views.py:76-92) never reads the copy's
  `status`, so `Views.RenewBookLibrarian` renews a copy in any status.
- `is_overdue` (catalog/models.py:74-78) looks only at `due_back`, so
  `Models.IsOverdue` is independent of the status too.

## Model

| member | source | states |
|---|---|---|
| Forms.CleanRenewalDate | catalog/forms.py:12-23 | a date is accepted iff today <= date <= today + 28; an accepted date comes back unchanged; a refusal is one of the two window errors |
| Forms.RenewalErrorsBySide | catalog/forms.py:16-20 | a date before today gets exactly the "renewal into the past" error, and a date after today + 28 gets exactly the "more than 4 weeks" error; the two never both apply |
| Forms.RenewalWindowBoundaries | catalog/forms.py:16-20 | today and today + 28 are both accepted (both comparisons are strict); today - 1 and today + 29 are refused |
| Forms.ValidateRenewal | catalog/views.py:85-87 | the bound form is valid iff the field reads as a date inside the window; a missing or unreadable date is refused; the accepted value is the submitted date |
| Views.ProposedRenewalDate | catalog/views.py:96 | the proposed date is today + 21 days and lies inside the window the form accepts |
| Models.StatusCode | catalog/models.py:80-93 | every status is stored as at most one character, and only the blank status as the empty string |
| Models.StatusCodeRoundTrip | catalog/models.py:80-85 | each status's stored code reads back as that status |
| Models.ParseStatusAcceptsOnlyChoices | catalog/models.py:80-91 | the codes that name a status are exactly `d`, `o`, `a`, `r` and blank, and each reads back to its own code |
| Models.NewBookInstance | catalog/models.py:66-93 | a new copy has status `d`, no due date and no borrower, and keeps the given key, book and imprint; it is overdue on no day |
| Models.IsOverdue | catalog/models.py:74-78 | true iff a due date is set and today is after it |
| Models.OverdueExactly | catalog/models.py:74-78 | overdue iff a due date is set and today is after it; never without a due date; not on the due date itself |
| Models.OverdueStaysOverdue | catalog/models.py:76-78 | a copy overdue today is overdue on every later day |
| Models.AuthorString | catalog/models.py:123-125 | the display is the last name, then ", ", then the first name, and nothing else |
| Models.AuthorStringSplits | catalog/models.py:125 | when neither name contains ", ", the display splits back into [last name, first name] |
| Models.InstanceString | catalog/models.py:102-104 | the display exists iff the copy has a book, and reads title, " [", status code, "] (", id, ")" in that order |
| Models.DisplayedGenres | catalog/models.py:51 | the genres shown are a prefix of the book's genres, of length min(6, number of genres) |
| Models.DisplayGenre | catalog/models.py:49-51 | the ", "-join of the names of the first six genres (all of them when there are fewer); "" for a book without genres; otherwise it starts with the first genre's name |
| Models.DisplayGenreLists | catalog/models.py:49-51 | no genres render as ""; otherwise the rendering splits back into the names of at most the first six genres (names free of ", ") |
| Models.DisplayGenreIgnoresTail | catalog/models.py:51 | two books that agree on their first (at most six) genres render the same genre list, whatever genres follow |
| Models.AuthorOrderIsTotalPreorder | catalog/models.py:115 | ordering by last name then first name relates any two authors and is transitive |
| Models.InstanceOrderIsTotalPreorder | catalog/models.py:97 | ordering copies by due date, with undated copies all first or all last, relates any two copies and is transitive |
| Models.InstanceOrderAscending | catalog/models.py:97 | in a sequence ordered that way, dated copies appear in ascending due-date order |
| Strings.SplitJoin | catalog/models.py:51 | splitting a ", "-join of separator-free names gives back the names |
| Collections.Sort | catalog/views.py:60 | the result is sorted by the key order and is a permutation of the input |
| Collections.Count | catalog/views.py:27 | the count equals the number of positions whose element matches, and is at most the length |
| Views.Index | catalog/views.py:22-38 | the counts are the table sizes; available = number of copies with status `a`, at most the number of copies; the page shows the stored visit count (0 if none) and the session keeps one more |
| Views.IndexVisitsCountUp | catalog/views.py:29-30 | a second visit shows exactly one more than the first |
| Views.LoanedByUser | catalog/views.py:59-60 | a permutation of exactly the copies borrowed by the user with status `o`, sorted by due date, so that set due dates ascend |
| Views.LoanedAll | catalog/views.py:70-71 | a permutation of exactly the copies with status `o`, whoever borrowed them, sorted by due date, so that set due dates ascend |
| Views.UserLoansWithinAllLoans | catalog/views.py:53-71 | a user's loan listing is a sub-multiset of the full loan listing, and every full-listing copy the user borrowed is in the user's listing |
| Views.LoanedBooksByUserView | catalog/views.py:53-60 | refused iff nobody is logged in; otherwise the page is the user's loan listing |
| Views.LoanedBooksAllView | catalog/views.py:63-71 | refused iff the caller lacks "can mark returned"; otherwise the page is the full loan listing |
| Views.AuthorListing | catalog/views.py:42-45 | the author list is a permutation of all authors, ordered by last name then first name |
| Views.FindInstance | catalog/views.py:79 | the lookup misses iff no copy has the key; a hit is a position holding a copy with that key |
| Views.RenewBookLibrarian | catalog/views.py:76-104 | the store keeps its size; a copy changes only on a redirect after an accepted submission, only if it has the key, and only in its due date; a redirect needs the permission, a POST and an accepted date |
| Views.RenewWithoutPermission | catalog/views.py:76 | without "can mark returned" the caller is sent to log in and nothing changes |
| Views.RenewMissingKey | catalog/views.py:79 | an unknown key gives not-found and nothing changes |
| Views.RenewAccepted | catalog/views.py:87-92 | an accepted date becomes the copy's due date; status, borrower, book, imprint, id and all other copies stay; the copy is not overdue today; the response redirects to the all-borrowed listing |
| Views.RenewRejected | catalog/views.py:85-104 | a refused submission re-renders the form for that copy with the refusal's error and changes nothing |
| Views.RenewFormProposal | catalog/views.py:95-104 | a non-POST request renders the form proposing today + 21, a date the form accepts, and changes nothing |

## Left out

- HTML rendering, templates, URL reversal (`reverse`, `reverse_lazy`,
  `get_absolute_url`), pagination (`paginate_by`) and translated labels:
  framework features with no logic of their own.
- The generic views with no bespoke logic (`BookListView`, `BookDetailView`,
  `AuthorDetailView`, and the Author/Book create, update and delete views,
  including the `AuthorCreate.post` override): their behaviour lives in the
  framework. The `'user.is_authenticated'` permission strings go with them.
- Authentication and permission machinery: the caller is a value
  (`Views.Caller`), and a refusal is one response; the framework's
  distinction between a login redirect and a 403 page is not modelled.
- Persistence and deletion: saving, `SET_NULL` on deleting a referenced book,
  author, language or user (the model only admits the resulting `None`),
  UUID generation and primary-key uniqueness (the renewal lookup takes the
  first copy with the key).
- The clock: `date.today()` is the `today` parameter. Python's date range
  (year 1 to 9999, where adding four weeks can overflow) is not modelled;
  day numbers are unbounded.
- Database collation and NULL placement: names are ordered by code point,
  and whether copies without a due date sort first or last is the
  `nullsFirst` parameter. The order of copies with equal due dates is left
  to the sort, as the database leaves it unspecified.
- Status codes outside the declared choices, which the column could hold
  without model validation: `LoanStatus` has only the declared choices and
  blank, and `ParseStatus` says which codes those are.
- `Genre.__str__`, `Language.__str__` and `Book.__str__` each return one field
  (the name or the title); the model uses the field directly.
- Field length limits (`max_length` of names, titles, imprint, ISBN) other
  than the one-character status code: form and database validation.
- Session storage beyond the visit counter's arithmetic, and concurrent
  last-write-wins races between requests.
