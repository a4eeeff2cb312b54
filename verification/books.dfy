/**
 The book lending counter: librarians maintain the catalogue, users borrow
 and return copies, and the available-copies counter moves with every open
 borrowing.
 */
module Books {
  import opened Common

  datatype Book = Book(
    title: string,
    author: string,
    category: string,
    isbn: string,
    bookshelf: string,
    shelfNumber: Option<string>,
    physicalCopies: int,
    availableCopies: int,
    pdfUrl: Option<string>,
    pdfAvailable: bool)

  /** A loan of one copy; open while it has no return date. */
  datatype Borrowing = Borrowing(userId: int, bookId: int, borrowDate: int, dueDate: int, returnDate: Option<int>)

  datatype Library = Library(books: seq<Book>, borrowings: seq<Borrowing>)

  /** How long a loan runs. */
  const LOAN_PERIOD := 14 * DAY

  /** Every borrowing refers to an existing book (the table's foreign key). */
  ghost predicate Valid(lib: Library) {
    forall k :: 0 <= k < |lib.borrowings| ==> IsId(|lib.books|, lib.borrowings[k].bookId)
  }

  // ---------------------------------------------------------------------
  // Catalogue maintenance (librarian or admin only)
  // ---------------------------------------------------------------------

  /** No two books carry the same ISBN (the `books_isbn_key` unique index). */
  ghost predicate IsbnsUnique(lib: Library) {
    forall i, j :: 0 <= i < j < |lib.books| ==> lib.books[i].isbn != lib.books[j].isbn
  }

  /** The value stored for an optional text column that the table requires. */
  function OrEmpty(o: Option<string>): string {
    if o.Some? then o.value else ""
  }

  /**
   Adds a book. Every copy starts out available and no PDF is attached; a
   missing ISBN or shelf reads as the empty string in the required columns.
   The ISBN column is unique, so a book whose stored ISBN is already taken,
   including a second one stored with the empty ISBN, makes the save fail.
   */
  function AddBook(lib: Library, role: string, title: string, author: string, isbn: Option<string>,
                   category: string, shelf: Option<string>, copies: int): (r: Step<Library, nat, ()>)
    ensures r.notices == []
    ensures !IsLibrarianOrAdmin(role) <==> r.response.Forbid?
    ensures r.response.Failed? <==>
      IsLibrarianOrAdmin(role) && exists i :: 0 <= i < |lib.books| && lib.books[i].isbn == OrEmpty(isbn)
    ensures r.response.Ok? <==>
      IsLibrarianOrAdmin(role) && forall i :: 0 <= i < |lib.books| ==> lib.books[i].isbn != OrEmpty(isbn)
    ensures !r.response.Ok? ==> r.state == lib
    ensures r.response.Ok? ==>
      && r.response.value == |lib.books| + 1
      && r.state.borrowings == lib.borrowings
      && |r.state.books| == |lib.books| + 1 && r.state.books[..|lib.books|] == lib.books
      && var b := r.state.books[|lib.books|];
         && b.availableCopies == b.physicalCopies == copies
         && !b.pdfAvailable && b.pdfUrl.None?
         && b.title == title && b.author == author && b.category == category && b.shelfNumber == shelf
         && b.isbn == (if isbn.Some? then isbn.value else "")
         && b.bookshelf == (if shelf.Some? then shelf.value else "")
  {
    if !IsLibrarianOrAdmin(role) then Reject(Forbid, lib)
    else if exists i :: 0 <= i < |lib.books| && lib.books[i].isbn == OrEmpty(isbn) then Reject(Failed, lib)
    else
      var b := Book(title, author, category, OrEmpty(isbn), OrEmpty(shelf), shelf, copies, copies, None, false);
      var books' := lib.books + [b];
      assert books'[..|lib.books|] == lib.books;
      Step(Ok(|lib.books| + 1), lib.(books := books'), [])
  }

  /**
   Adding a book keeps loans pointing at existing books and ISBNs unique,
   and the new book starts with all its copies accounted for: available
   plus lent out equals physical.
   */
  lemma AddBookKeepsCounts(lib: Library, role: string, title: string, author: string, isbn: Option<string>,
                           category: string, shelf: Option<string>, copies: int)
    requires Valid(lib) && IsbnsUnique(lib)
    ensures var r := AddBook(lib, role, title, author, isbn, category, shelf, copies);
      && Valid(r.state) && IsbnsUnique(r.state)
      && (r.response.Ok? ==>
            r.state.books[|lib.books|].availableCopies + OpenLoans(r.state, |lib.books| + 1)
            == r.state.books[|lib.books|].physicalCopies)
  {
    var r := AddBook(lib, role, title, author, isbn, category, shelf, copies);
    if r.response.Ok? {
      var newId := |lib.books| + 1;
      forall k | 0 <= k < |r.state.borrowings|
        ensures !OpenLoanOf(newId)(r.state.borrowings[k])
      {
        assert IsId(|lib.books|, lib.borrowings[k].bookId);
      }
      CountWhereZero(r.state.borrowings, OpenLoanOf(newId));
      forall i, j | 0 <= i < j < |r.state.books|
        ensures r.state.books[i].isbn != r.state.books[j].isbn
      {
        if j == |lib.books| {
          assert r.state.books[i] == lib.books[i];
        } else {
          assert r.state.books[i] == lib.books[i] && r.state.books[j] == lib.books[j];
        }
      }
    }
  }

  /** Gate and lookup shared by the three edit actions. */
  function EditBook(lib: Library, role: string, id: int, edit: Book -> Book): (r: Step<Library, (), ()>)
    ensures r.notices == []
    ensures !IsLibrarianOrAdmin(role) ==> r.response.Forbid?
    ensures IsLibrarianOrAdmin(role) && !IsId(|lib.books|, id) ==> r.response.NotFound?
    ensures r.response.Ok? <==> IsLibrarianOrAdmin(role) && IsId(|lib.books|, id)
    ensures !r.response.Ok? ==> r.state == lib
    ensures r.response.Ok? ==> r.state == lib.(books := lib.books[id - 1 := edit(lib.books[id - 1])])
  {
    if !IsLibrarianOrAdmin(role) then Reject(Forbid, lib)
    else if !IsId(|lib.books|, id) then Reject(NotFound, lib)
    else Step(Ok(()), lib.(books := lib.books[id - 1 := edit(lib.books[id - 1])]), [])
  }

  function UpdateShelf(lib: Library, role: string, id: int, shelf: string): (r: Step<Library, (), ()>)
    ensures !IsLibrarianOrAdmin(role) ==> r.response.Forbid?
    ensures IsLibrarianOrAdmin(role) && !IsId(|lib.books|, id) ==> r.response.NotFound?
    ensures r.response.Ok? <==> IsLibrarianOrAdmin(role) && IsId(|lib.books|, id)
    ensures !r.response.Ok? ==> r.state == lib
    ensures r.response.Ok? ==> r.state == lib.(books := lib.books[id - 1 := lib.books[id - 1].(shelfNumber := Some(shelf))])
  {
    EditBook(lib, role, id, (b: Book) => b.(shelfNumber := Some(shelf)))
  }

  /** Overwrites both counters with whatever is given; nothing ties them to open loans. */
  function UpdateCopies(lib: Library, role: string, id: int, physical: int, available: int): (r: Step<Library, (), ()>)
    ensures !IsLibrarianOrAdmin(role) ==> r.response.Forbid?
    ensures IsLibrarianOrAdmin(role) && !IsId(|lib.books|, id) ==> r.response.NotFound?
    ensures r.response.Ok? <==> IsLibrarianOrAdmin(role) && IsId(|lib.books|, id)
    ensures !r.response.Ok? ==> r.state == lib
    ensures r.response.Ok? ==> r.state == lib.(books := lib.books[id - 1 :=
      lib.books[id - 1].(physicalCopies := physical, availableCopies := available)])
  {
    EditBook(lib, role, id, (b: Book) => b.(physicalCopies := physical, availableCopies := available))
  }

  /** Sets the PDF link; the book offers a PDF exactly when the link is present and non-empty. */
  function UpdatePdf(lib: Library, role: string, id: int, url: Option<string>): (r: Step<Library, (), ()>)
    ensures !IsLibrarianOrAdmin(role) ==> r.response.Forbid?
    ensures IsLibrarianOrAdmin(role) && !IsId(|lib.books|, id) ==> r.response.NotFound?
    ensures r.response.Ok? <==> IsLibrarianOrAdmin(role) && IsId(|lib.books|, id)
    ensures !r.response.Ok? ==> r.state == lib
    ensures r.response.Ok? ==>
      && |r.state.books| == |lib.books| && r.state.borrowings == lib.borrowings
      && r.state.books[id - 1].pdfUrl == url
      && (r.state.books[id - 1].pdfAvailable <==> url.Some? && |url.value| > 0)
      && r.state.books[id - 1] == lib.books[id - 1].(pdfUrl := url, pdfAvailable := r.state.books[id - 1].pdfAvailable)
      && forall i :: 0 <= i < |lib.books| && i != id - 1 ==> r.state.books[i] == lib.books[i]
  {
    EditBook(lib, role, id, (b: Book) => b.(pdfUrl := url, pdfAvailable := !(url.None? || url.value == "")))
  }

  /**
   Changing a PDF link touches neither the loans nor any copy counter: loans
   still point at existing books, and every book keeps its available-plus-
   lent-out total.
   */
  lemma UpdatePdfKeepsCounts(lib: Library, role: string, id: int, url: Option<string>, bookId: int)
    requires Valid(lib) && IsId(|lib.books|, bookId)
    ensures var l' := UpdatePdf(lib, role, id, url).state;
      && Valid(l')
      && l'.books[bookId - 1].availableCopies + OpenLoans(l', bookId)
         == lib.books[bookId - 1].availableCopies + OpenLoans(lib, bookId)
  {
  }

  // ---------------------------------------------------------------------
  // Borrow and return
  // ---------------------------------------------------------------------

  /** Selects the open loans of one book. */
  function OpenLoanOf(bookId: int): Borrowing -> bool {
    (b: Borrowing) => b.bookId == bookId && b.returnDate.None?
  }

  /** The number of copies of a book currently lent out. */
  function OpenLoans(lib: Library, bookId: int): nat {
    CountWhere(lib.borrowings, OpenLoanOf(bookId))
  }

  datatype BorrowError = NoCopies

  /**
   A signed-in user borrows a copy. An unknown book is NotFound and a book
   with no available copy is refused. Otherwise one open loan due 14 days
   later is added and the book's available copies drop by exactly one.
   */
  function Borrow(lib: Library, caller: int, id: int, now: int): (r: Step<Library, nat, BorrowError>)
    ensures r.notices == []
    ensures caller == ANONYMOUS ==> r.response.Unauthorized?
    ensures caller != ANONYMOUS && !IsId(|lib.books|, id) ==> r.response.NotFound?
    ensures r.response == BadRequest(NoCopies) <==>
      caller != ANONYMOUS && IsId(|lib.books|, id) && lib.books[id - 1].availableCopies <= 0
    ensures r.response.Ok? <==>
      caller != ANONYMOUS && IsId(|lib.books|, id) && lib.books[id - 1].availableCopies > 0
    ensures !r.response.Ok? ==> r.state == lib
    ensures r.response.Ok? ==>
      && r.response.value == |lib.borrowings| + 1
      && r.state.borrowings == lib.borrowings + [Borrowing(caller, id, now, now + LOAN_PERIOD, None)]
      && |r.state.books| == |lib.books|
      && r.state.books[id - 1].availableCopies == lib.books[id - 1].availableCopies - 1
      && r.state.books[id - 1] == lib.books[id - 1].(availableCopies := r.state.books[id - 1].availableCopies)
      && forall i :: 0 <= i < |lib.books| && i != id - 1 ==> r.state.books[i] == lib.books[i]
  {
    if caller == ANONYMOUS then Reject(Unauthorized, lib)
    else if !IsId(|lib.books|, id) then Reject(NotFound, lib)
    else
      var book := lib.books[id - 1];
      if book.availableCopies <= 0 then Reject(BadRequest(NoCopies), lib)
      else
        var loan := Borrowing(caller, id, now, now + LOAN_PERIOD, None);
        Step(Ok(|lib.borrowings| + 1),
             Library(lib.books[id - 1 := book.(availableCopies := book.availableCopies - 1)], lib.borrowings + [loan]),
             [])
  }

  datatype ReturnError = AlreadyReturned

  /**
   The borrower returns a loan. Only the caller's own loan is found; a loan
   already returned is refused with no change. Otherwise the return date is
   stamped and the book's available copies rise by exactly one.
   */
  function Return(lib: Library, caller: int, id: int, now: int): (r: Step<Library, (), ReturnError>)
    requires Valid(lib)
    ensures r.notices == []
    ensures !(IsId(|lib.borrowings|, id) && lib.borrowings[id - 1].userId == caller) <==> r.response.NotFound?
    ensures r.response == BadRequest(AlreadyReturned) <==>
      IsId(|lib.borrowings|, id) && lib.borrowings[id - 1].userId == caller && lib.borrowings[id - 1].returnDate.Some?
    ensures IsId(|lib.borrowings|, id) && lib.borrowings[id - 1].userId == caller && lib.borrowings[id - 1].returnDate.None? ==>
      r.response.Ok?
    ensures !r.response.Ok? ==> r.state == lib
    ensures r.response.Ok? ==>
      var loan := lib.borrowings[id - 1];
      && loan.returnDate.None?
      && r.state.borrowings == lib.borrowings[id - 1 := loan.(returnDate := Some(now))]
      && |r.state.books| == |lib.books|
      && r.state.books[loan.bookId - 1]
         == lib.books[loan.bookId - 1].(availableCopies := lib.books[loan.bookId - 1].availableCopies + 1)
      && forall i :: 0 <= i < |lib.books| && i != loan.bookId - 1 ==> r.state.books[i] == lib.books[i]
  {
    if !(IsId(|lib.borrowings|, id) && lib.borrowings[id - 1].userId == caller) then Reject(NotFound, lib)
    else
      var loan := lib.borrowings[id - 1];
      if loan.returnDate.Some? then Reject(BadRequest(AlreadyReturned), lib)
      else
        var book := lib.books[loan.bookId - 1];
        Step(Ok(()),
             Library(lib.books[loan.bookId - 1 := book.(availableCopies := book.availableCopies + 1)],
                     lib.borrowings[id - 1 := loan.(returnDate := Some(now))]),
             [])
  }

  /** Borrowing keeps every loan pointing at an existing book. */
  lemma BorrowKeepsValid(lib: Library, caller: int, id: int, now: int)
    requires Valid(lib)
    ensures Valid(Borrow(lib, caller, id, now).state)
  {
    var l' := Borrow(lib, caller, id, now).state;
    assert forall k :: 0 <= k < |lib.borrowings| ==> l'.borrowings[k] == lib.borrowings[k];
  }

  /** Returning keeps every loan pointing at an existing book. */
  lemma ReturnKeepsValid(lib: Library, caller: int, id: int, now: int)
    requires Valid(lib)
    ensures Valid(Return(lib, caller, id, now).state)
  {
  }

  /**
   Borrowing conserves, for every book, available copies plus open loans:
   the borrowed book loses a copy and gains a loan, the others are untouched.
   */
  lemma {:induction false} BorrowConservesCopies(lib: Library, caller: int, id: int, now: int, bookId: int)
    requires IsId(|lib.books|, bookId)
    ensures var l' := Borrow(lib, caller, id, now).state;
      l'.books[bookId - 1].availableCopies + OpenLoans(l', bookId)
      == lib.books[bookId - 1].availableCopies + OpenLoans(lib, bookId)
  {
    var r := Borrow(lib, caller, id, now);
    if r.response.Ok? {
      var loan := Borrowing(caller, id, now, now + LOAN_PERIOD, None);
      assert r.state.borrowings == lib.borrowings + [loan];
      CountWhereAppend(lib.borrowings, loan, OpenLoanOf(bookId));
    }
  }

  /**
   Returning conserves, for every book, available copies plus open loans:
   the loan closes and its book gets the copy back.
   */
  lemma {:induction false} ReturnConservesCopies(lib: Library, caller: int, id: int, now: int, bookId: int)
    requires Valid(lib) && IsId(|lib.books|, bookId)
    ensures var l' := Return(lib, caller, id, now).state;
      l'.books[bookId - 1].availableCopies + OpenLoans(l', bookId)
      == lib.books[bookId - 1].availableCopies + OpenLoans(lib, bookId)
  {
    var r := Return(lib, caller, id, now);
    if r.response.Ok? {
      var loan := lib.borrowings[id - 1];
      CountWhereUpdate(lib.borrowings, id - 1, loan.(returnDate := Some(now)), OpenLoanOf(bookId));
    }
  }

  /** A loan can be returned once: a second return of it is refused. */
  lemma NoDoubleReturn(lib: Library, caller: int, id: int, now: int, later: int)
    requires Valid(lib) && Return(lib, caller, id, now).response.Ok?
    ensures Return(Return(lib, caller, id, now).state, caller, id, later).response == BadRequest(AlreadyReturned)
  {
    ReturnKeepsValid(lib, caller, id, now);
  }

  // ---------------------------------------------------------------------
  // Queries
  // ---------------------------------------------------------------------

  /** Lower-cases the ASCII letters A to Z and leaves every other character alone. */
  function LowerChar(c: char): char {
    if 'A' <= c <= 'Z' then (c as int - 'A' as int + 'a' as int) as char else c
  }

  function UpperChar(c: char): char {
    if 'a' <= c <= 'z' then (c as int - 'a' as int + 'A' as int) as char else c
  }

  function Lower(s: string): (t: string)
    ensures |t| == |s| && forall i :: 0 <= i < |s| ==> t[i] == LowerChar(s[i])
  {
    seq(|s|, i requires 0 <= i < |s| => LowerChar(s[i]))
  }

  function Upper(s: string): (t: string)
    ensures |t| == |s| && forall i :: 0 <= i < |s| ==> t[i] == UpperChar(s[i])
  {
    seq(|s|, i requires 0 <= i < |s| => UpperChar(s[i]))
  }

  /** `q` occurs in `s` starting at position `i`. */
  predicate OccursAt(s: string, q: string, i: int) {
    0 <= i <= |s| - |q| && s[i..i + |q|] == q
  }

  /** `q` occurs in `s` as a contiguous piece; the empty string occurs everywhere. */
  predicate Contains(s: string, q: string) {
    exists i :: 0 <= i <= |s| - |q| && OccursAt(s, q, i)
  }

  /** Selects the books whose lower-cased title or author contains `lowered`. */
  function MatchesLowered(lowered: string): Book -> bool {
    (b: Book) => Contains(Lower(b.title), lowered) || Contains(Lower(b.author), lowered)
  }

  /** The search test: title or author contains the query, ignoring case. */
  predicate Matches(b: Book, query: string) {
    MatchesLowered(Lower(query))(b)
  }

  /** Exactly the ids of the books whose title or author contains the query, ignoring case. */
  function SearchBooks(lib: Library, query: string): (ids: seq<nat>)
    ensures forall k :: 0 <= k < |ids| ==> IsId(|lib.books|, ids[k]) && Matches(lib.books[ids[k] - 1], query)
    ensures forall i :: 0 <= i < |lib.books| && Matches(lib.books[i], query) ==> i + 1 in ids
    ensures forall k, l :: 0 <= k < l < |ids| ==> ids[k] < ids[l]
  {
    IdsWhere(lib.books, MatchesLowered(Lower(query)))
  }

  /** The query's letter case never changes the search result. */
  lemma SearchIgnoresCase(lib: Library, query: string)
    ensures SearchBooks(lib, Upper(query)) == SearchBooks(lib, query)
    ensures SearchBooks(lib, Lower(query)) == SearchBooks(lib, query)
  {
    assert Lower(Upper(query)) == Lower(query);
    assert Lower(Lower(query)) == Lower(query);
  }

  /** One row of the caller's loan list. */
  datatype LoanView = LoanView(borrowingId: nat, bookId: int, dueDate: int, isOverdue: bool)

  function OpenLoanBy(user: int): Borrowing -> bool {
    (b: Borrowing) => b.userId == user && b.returnDate.None?
  }

  function LoanViews(lib: Library, ids: seq<nat>, now: int): (views: seq<LoanView>)
    requires forall k :: 0 <= k < |ids| ==> 1 <= ids[k] <= |lib.borrowings|
    ensures |views| == |ids|
    ensures forall k :: 0 <= k < |ids| ==>
      var loan := lib.borrowings[ids[k] - 1];
      views[k] == LoanView(ids[k], loan.bookId, loan.dueDate, loan.dueDate < now)
  {
    seq(|ids|, k requires 0 <= k < |ids| =>
      var loan := lib.borrowings[ids[k] - 1];
      LoanView(ids[k], loan.bookId, loan.dueDate, loan.dueDate < now))
  }

  /** Every open loan of the caller has a row in the view. */
  lemma LoanViewsComplete(lib: Library, caller: int, now: int, ids: seq<nat>, views: seq<LoanView>)
    requires ids == IdsWhere(lib.borrowings, OpenLoanBy(caller))
    requires |views| == |ids| && forall k :: 0 <= k < |ids| ==> views[k].borrowingId == ids[k]
    ensures forall i ::
      (0 <= i < |lib.borrowings| && lib.borrowings[i].userId == caller && lib.borrowings[i].returnDate.None?)
      ==> exists k :: 0 <= k < |views| && views[k].borrowingId == i + 1
  {
    forall i | 0 <= i < |lib.borrowings| && lib.borrowings[i].userId == caller && lib.borrowings[i].returnDate.None?
      ensures exists k :: 0 <= k < |views| && views[k].borrowingId == i + 1
    {
      assert OpenLoanBy(caller)(lib.borrowings[i]);
      assert i + 1 in ids;
      var k :| 0 <= k < |ids| && ids[k] == i + 1;
      assert views[k].borrowingId == i + 1;
    }
  }

  /** The view row for loan `v.borrowingId`: the caller's, open, flagged overdue exactly when due has passed. */
  ghost predicate ShowsOpenLoan(lib: Library, v: LoanView, caller: int, now: int) {
    && IsId(|lib.borrowings|, v.borrowingId)
    && var loan := lib.borrowings[v.borrowingId - 1];
       && loan.userId == caller && loan.returnDate.None?
       && v.bookId == loan.bookId && v.dueDate == loan.dueDate
       && (v.isOverdue <==> loan.dueDate < now)
  }

  /** Listing only open loans of the caller yields only rows that show such a loan. */
  lemma LoanViewsSound(lib: Library, caller: int, now: int, ids: seq<nat>)
    requires forall k :: 0 <= k < |ids| ==>
      1 <= ids[k] <= |lib.borrowings|
      && lib.borrowings[ids[k] - 1].userId == caller && lib.borrowings[ids[k] - 1].returnDate.None?
    ensures var views := LoanViews(lib, ids, now);
      forall k :: 0 <= k < |views| ==> ShowsOpenLoan(lib, views[k], caller, now)
  {
  }

  /**
   The caller's open loans, one row each, in id order, each flagged overdue
   exactly when its due date has passed.
   */
  function BorrowedBooks(lib: Library, caller: int, now: int): (r: Response<seq<LoanView>, ()>)
    ensures caller == ANONYMOUS <==> r.Unauthorized?
    ensures caller != ANONYMOUS ==> r.Ok?
    ensures r.Ok? ==> forall k :: 0 <= k < |r.value| ==> ShowsOpenLoan(lib, r.value[k], caller, now)
    ensures r.Ok? ==> forall i ::
      (0 <= i < |lib.borrowings| && lib.borrowings[i].userId == caller && lib.borrowings[i].returnDate.None?)
      ==> exists k :: 0 <= k < |r.value| && r.value[k].borrowingId == i + 1
    ensures r.Ok? ==> forall k, l :: 0 <= k < l < |r.value| ==> r.value[k].borrowingId != r.value[l].borrowingId
  {
    if caller == ANONYMOUS then Unauthorized
    else
      var ids := IdsWhere(lib.borrowings, OpenLoanBy(caller));
      var views := LoanViews(lib, ids, now);
      LoanViewsComplete(lib, caller, now, ids, views);
      assert forall k :: 0 <= k < |ids| ==> OpenLoanBy(caller)(lib.borrowings[ids[k] - 1]);
      LoanViewsSound(lib, caller, now, ids);
      Ok(views)
  }
}
