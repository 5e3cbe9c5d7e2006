/** What the application's operations promise, stated over the value model. */
module LibraryProperties {
  import opened Wrappers
  import opened Lists
  import opened Text
  import opened Books
  import opened Members
  import opened Transactions
  import opened LibraryModel
  import opened LibraryInvariant
  import BC = BookCategories
  import MT = MemberTypes
  import TT = TransactionTypes
  import TS = TransactionStatuses

  // ---------------------------------------------------------------- borrowing

  /** Borrowing checks, in this order: the member exists, the member may borrow, the book
      exists, the book is available. The first failing check is reported, and then nothing
      changes: no list, no counter. */
  lemma BorrowChecksInOrder(s: LibState, memberId: string, isbn: string, today: int)
    ensures var r := Borrow(s, memberId, isbn, today);
      var fm := FirstIndex(s.members, MemberIdIs(memberId));
      var fb := FirstIndex(s.books, IsbnIs(isbn));
      (r.1 == MemberNotFound <==> forall j :: 0 <= j < |s.members| ==> s.members[j].memberId != memberId) &&
      (r.1 == MemberCannotBorrow <==> fm.Some? && !s.members[fm.value].CanBorrowBooks(today)) &&
      (r.1 == BookNotFound <==> fm.Some? && s.members[fm.value].CanBorrowBooks(today) && fb.None?) &&
      (r.1 == BookNotAvailable <==>
         fm.Some? && s.members[fm.value].CanBorrowBooks(today) && fb.Some? && !s.books[fb.value].IsAvailable()) &&
      (r.1.BorrowedAs? <==>
         fm.Some? && s.members[fm.value].CanBorrowBooks(today) && fb.Some? && s.books[fb.value].IsAvailable()) &&
      (r.1 in {MemberNotFound, MemberCannotBorrow, BookNotFound, BookNotAvailable} || r.1.BorrowedAs?) &&
      (!r.1.BorrowedAs? ==> r.0 == s)
  {
  }

  /** A successful borrow appends one ACTIVE BORROW transaction with the next TXN id, due
      in two weeks; moves the transaction counter on by one; takes one copy off the book
      found; adds one book to the member found; and changes nothing else. */
  lemma BorrowEffects(s: LibState, memberId: string, isbn: string, today: int)
    requires Borrow(s, memberId, isbn, today).1.BorrowedAs?
    ensures var r := Borrow(s, memberId, isbn, today);
      var mi := FirstIndex(s.members, MemberIdIs(memberId)).value;
      var bi := FirstIndex(s.books, IsbnIs(isbn)).value;
      var n := |s.transactions|;
      r.1 == BorrowedAs(TransactionIdFor(s.nextTransactionId)) &&
      |r.0.transactions| == n + 1 && r.0.transactions[..n] == s.transactions &&
      r.0.transactions[n].transactionId == TransactionIdFor(s.nextTransactionId) &&
      r.0.transactions[n].memberId == memberId && r.0.transactions[n].bookIsbn == isbn &&
      r.0.transactions[n].txnType == TT.Borrow && r.0.transactions[n].status == TS.Active &&
      r.0.transactions[n].dueDate == Some(today + LoanPeriodDays) && r.0.transactions[n].fineAmount == 0 &&
      r.0.nextTransactionId == s.nextTransactionId + 1 && r.0.nextMemberId == s.nextMemberId &&
      |r.0.books| == |s.books| &&
      r.0.books[bi].availableCopies == s.books[bi].availableCopies - 1 &&
      (forall j :: 0 <= j < |s.books| && j != bi ==> r.0.books[j] == s.books[j]) &&
      |r.0.members| == |s.members| &&
      r.0.members[mi].currentBorrowedBooks == s.members[mi].currentBorrowedBooks + 1 &&
      r.0.members[mi].totalFinesOwed == s.members[mi].totalFinesOwed &&
      (forall j :: 0 <= j < |s.members| && j != mi ==> r.0.members[j] == s.members[j])
  {
    var r := Borrow(s, memberId, isbn, today);
    assert r.0.transactions[..|s.transactions|] == s.transactions;
  }

  // ---------------------------------------------------------------- returning

  /** Returning checks that the member exists, that the book exists and that some
      transaction is an ACTIVE BORROW of that book by that member; the first failing check
      is reported and nothing changes. */
  lemma ReturnChecksInOrder(s: LibState, memberId: string, isbn: string, today: int)
    ensures var r := Return(s, memberId, isbn, today);
      var succeeded := r.1 == ReturnedOnTime || r.1.ReturnedWithFine?;
      (r.1 == MemberNotFound <==> forall j :: 0 <= j < |s.members| ==> s.members[j].memberId != memberId) &&
      (r.1 == BookNotFound <==>
         (exists j :: 0 <= j < |s.members| && s.members[j].memberId == memberId) &&
         (forall j :: 0 <= j < |s.books| ==> s.books[j].isbn != isbn)) &&
      (r.1 == NoActiveLoan <==>
         (exists j :: 0 <= j < |s.members| && s.members[j].memberId == memberId) &&
         (exists j :: 0 <= j < |s.books| && s.books[j].isbn == isbn) &&
         (forall j :: 0 <= j < |s.transactions| ==> !ActiveLoanFor(memberId, isbn)(s.transactions[j]))) &&
      (succeeded || r.1 in {MemberNotFound, BookNotFound, NoActiveLoan}) &&
      (!succeeded ==> r.0 == s)
  {
    var r := Return(s, memberId, isbn, today);
    match FirstIndex(s.members, MemberIdIs(memberId))
    case None =>
    case Some(mi) =>
      match FirstIndex(s.books, IsbnIs(isbn))
      case None =>
      case Some(bi) =>
        assert s.books[bi].isbn == isbn;
  }

  /** A successful return completes the first matching loan in list order and no other
      transaction; puts the copy back; takes one book off the member; and adds the loan's
      fine to the member only when that fine is positive. */
  lemma ReturnEffects(s: LibState, memberId: string, isbn: string, today: int)
    requires var r := Return(s, memberId, isbn, today); r.1 == ReturnedOnTime || r.1.ReturnedWithFine?
    ensures var r := Return(s, memberId, isbn, today);
      var mi := FirstIndex(s.members, MemberIdIs(memberId)).value;
      var bi := FirstIndex(s.books, IsbnIs(isbn)).value;
      var ti := FirstIndex(s.transactions, ActiveLoanFor(memberId, isbn)).value;
      var t := s.transactions[ti];
      ActiveLoanFor(memberId, isbn)(t) &&
      (forall j :: 0 <= j < ti ==> !ActiveLoanFor(memberId, isbn)(s.transactions[j])) &&
      |r.0.transactions| == |s.transactions| &&
      r.0.transactions[ti] == t.(returnDate := Some(today), status := TS.Completed) &&
      (forall j :: 0 <= j < |s.transactions| && j != ti ==> r.0.transactions[j] == s.transactions[j]) &&
      |r.0.books| == |s.books| && r.0.books[bi] == s.books[bi].ReturnCopy() &&
      (forall j :: 0 <= j < |s.books| && j != bi ==> r.0.books[j] == s.books[j]) &&
      |r.0.members| == |s.members| &&
      r.0.members[mi].currentBorrowedBooks == (if s.members[mi].currentBorrowedBooks > 0 then s.members[mi].currentBorrowedBooks - 1 else s.members[mi].currentBorrowedBooks) &&
      r.0.members[mi].totalFinesOwed == s.members[mi].totalFinesOwed + (if t.fineAmount > 0 then t.fineAmount else 0) &&
      (forall j :: 0 <= j < |s.members| && j != mi ==> r.0.members[j] == s.members[j]) &&
      r.1 == (if t.fineAmount > 0 then ReturnedWithFine(t.fineAmount) else ReturnedOnTime) &&
      r.0.nextMemberId == s.nextMemberId && r.0.nextTransactionId == s.nextTransactionId
  {
  }

  /** `completeReturn` marks the loan COMPLETED before it computes the fine, so no fine is
      computed at return: in a consistent state the fine branch is never taken and no
      member's debt changes, however late the book comes back. */
  lemma NoFineAtReturn(s: LibState, memberId: string, isbn: string, today: int)
    requires Consistent(s)
    ensures var r := Return(s, memberId, isbn, today);
      !r.1.ReturnedWithFine? &&
      |r.0.members| == |s.members| &&
      forall j :: 0 <= j < |s.members| ==> r.0.members[j].totalFinesOwed == s.members[j].totalFinesOwed == 0
  {
    var r := Return(s, memberId, isbn, today);
    match FirstIndex(s.members, MemberIdIs(memberId))
    case None =>
    case Some(mi) =>
      match FirstIndex(s.books, IsbnIs(isbn))
      case None =>
      case Some(bi) =>
        match FirstIndex(s.transactions, ActiveLoanFor(memberId, isbn))
        case None =>
        case Some(ti) =>
          assert LoanWellFormed(s.transactions[ti]);
  }

  /** Since nothing is ever owed, fines never stop a member of a consistent state from
      borrowing. */
  lemma FinesNeverBlockBorrowing(s: LibState, i: nat, today: int)
    requires Consistent(s) && i < |s.members|
    ensures s.members[i].CanBorrowBooks(today) <==>
            s.members[i].IsActive(today) && s.members[i].currentBorrowedBooks < s.members[i].memberType.MaxBooksAllowed()
  {
    assert MemberAccounted(s.members[i], s.transactions);
  }

  /** A COMPLETED transaction is never changed again, by a borrow or by a return. */
  lemma CompletedLoansStayPut(s: LibState, memberId: string, isbn: string, today: int, i: nat)
    requires i < |s.transactions| && s.transactions[i].status == TS.Completed
    ensures Borrow(s, memberId, isbn, today).0.transactions[i] == s.transactions[i]
    ensures Return(s, memberId, isbn, today).0.transactions[i] == s.transactions[i]
  {
    match FirstIndex(s.members, MemberIdIs(memberId))
    case None =>
    case Some(mi) =>
      match FirstIndex(s.books, IsbnIs(isbn))
      case None =>
      case Some(bi) =>
        match FirstIndex(s.transactions, ActiveLoanFor(memberId, isbn))
        case None =>
        case Some(ti) =>
          assert ti != i;
  }

  /** Borrowing a book and then returning it, on any later day, gives back the books and
      members exactly as they were, reports no fine, and leaves one more transaction. */
  lemma BorrowThenReturnRestores(s: LibState, memberId: string, isbn: string, day1: int, day2: int)
    requires Consistent(s)
    requires Borrow(s, memberId, isbn, day1).1.BorrowedAs?
    ensures var s1 := Borrow(s, memberId, isbn, day1).0;
      var r := Return(s1, memberId, isbn, day2);
      r.1 == ReturnedOnTime && r.0.books == s.books && r.0.members == s.members &&
      |r.0.transactions| == |s.transactions| + 1
  {
    var mi := FirstIndex(s.members, MemberIdIs(memberId)).value;
    var bi := FirstIndex(s.books, IsbnIs(isbn)).value;
    assert s.members[mi].Valid() && s.books[bi].Valid();
    BorrowCommits(s, memberId, isbn, day1, mi, bi);
    var t := NewTransaction(TransactionIdFor(s.nextTransactionId), memberId, isbn, TT.Borrow, day1);
    var s1 := s.(books := s.books[bi := s.books[bi].BorrowCopy()],
                 members := s.members[mi := s.members[mi].BorrowBook(day1).value],
                 transactions := s.transactions + [t], nextTransactionId := s.nextTransactionId + 1);
    assert Borrow(s, memberId, isbn, day1).0 == s1;
    ReturnAfterLend(s, s1, memberId, isbn, day1, day2, mi, bi, t);
  }

  /** Returning the loan just made, once the member and the book have been found. */
  lemma ReturnAfterLend(s: LibState, s1: LibState, memberId: string, isbn: string, day1: int, day2: int,
                        mi: nat, bi: nat, t: TxnRec)
    requires FirstIndex(s.members, MemberIdIs(memberId)) == Some(mi) && s.members[mi].CanBorrowBooks(day1)
    requires FirstIndex(s.books, IsbnIs(isbn)) == Some(bi) && s.books[bi].IsAvailable()
    requires s.members[mi].Valid() && s.books[bi].Valid() && LoansWellFormed(s.transactions)
    requires t == NewTransaction(TransactionIdFor(s.nextTransactionId), memberId, isbn, TT.Borrow, day1)
    requires s1 == s.(books := s.books[bi := s.books[bi].BorrowCopy()],
                      members := s.members[mi := s.members[mi].BorrowBook(day1).value],
                      transactions := s.transactions + [t], nextTransactionId := s.nextTransactionId + 1)
    ensures var r := Return(s1, memberId, isbn, day2);
      r.1 == ReturnedOnTime && r.0.books == s.books && r.0.members == s.members &&
      |r.0.transactions| == |s.transactions| + 1
  {
    var m := s.members[mi];
    var b := s.books[bi];
    var m' := m.BorrowBook(day1).value;
    FirstIndexUpdate(s.members, mi, m', MemberIdIs(memberId));
    FirstIndexUpdate(s.books, bi, b.BorrowCopy(), IsbnIs(isbn));
    var n := |s.transactions|;
    assert s1.transactions[n] == t;
    assert ActiveLoanFor(memberId, isbn)(s1.transactions[n]);
    var ti := FirstIndex(s1.transactions, ActiveLoanFor(memberId, isbn)).value;
    assert s1.transactions[ti].fineAmount == 0 by {
      if ti < n {
        assert s1.transactions[ti] == s.transactions[ti];
        assert LoanWellFormed(s.transactions[ti]);
      }
    }
    ReturnCommits(s1, memberId, isbn, day2, mi, bi, ti);
    Books.BorrowThenReturnRestores(b);
    assert s.books[bi := b.BorrowCopy()][bi := b.BorrowCopy().ReturnCopy()] == s.books;
    assert s.members[mi := m'][mi := m'.ReturnBook()] == s.members;
  }

  // ---------------------------------------------------------------- catalogue and registration

  /** Adding a book: an ISBN already present is rejected, then a category choice outside
      1..14; a rejection changes nothing. Otherwise exactly one new, available book is
      appended, with the publisher only when one was typed and the year only when given. */
  lemma AddBookEffects(s: LibState, isbn: string, title: string, author: string, categoryChoice: int,
                       publisher: string, year: Option<int>)
    ensures var r := AddBook(s, isbn, title, author, categoryChoice, publisher, year);
      ((exists j :: 0 <= j < |s.books| && s.books[j].isbn == isbn) ==> r == (s, DuplicateIsbn)) &&
      (r.1 == DuplicateIsbn <==> exists j :: 0 <= j < |s.books| && s.books[j].isbn == isbn) &&
      (r.1 == BookAdded <==>
         (forall j :: 0 <= j < |s.books| ==> s.books[j].isbn != isbn) && 1 <= categoryChoice <= |BC.AllCategories|) &&
      (r.1 in {DuplicateIsbn, InvalidCategory, BookAdded}) &&
      (r.1 == InvalidCategory <==>
         (forall j :: 0 <= j < |s.books| ==> s.books[j].isbn != isbn) && !(1 <= categoryChoice <= |BC.AllCategories|)) &&
      (r.1 != BookAdded ==> r.0 == s) &&
      (r.1 == BookAdded ==>
         |r.0.books| == |s.books| + 1 && r.0.books[..|s.books|] == s.books &&
         r.0.books[|s.books|].isbn == isbn && r.0.books[|s.books|].title == title &&
         r.0.books[|s.books|].author == author &&
         r.0.books[|s.books|].category == BC.AllCategories[categoryChoice - 1] &&
         r.0.books[|s.books|].publisher == (if IsBlank(publisher) then None else Some(publisher)) &&
         r.0.books[|s.books|].yearPublished == year &&
         r.0.books[|s.books|].IsAvailable() && r.0.books[|s.books|].Valid() &&
         r.0.members == s.members && r.0.transactions == s.transactions &&
         r.0.nextMemberId == s.nextMemberId && r.0.nextTransactionId == s.nextTransactionId)
  {
    var r := AddBook(s, isbn, title, author, categoryChoice, publisher, year);
    if r.1 == BookAdded {
      assert r.0.books[..|s.books|] == s.books;
    }
  }

  /** Registering: an email already in use, ignoring case, is rejected before the type
      choice is looked at, then a type choice outside 1..6; a rejection changes nothing
      and does not use up a member ID. Otherwise one new ACTIVE member with the next MEM
      id is appended and the counter moves on by one. */
  lemma RegisterEffects(s: LibState, firstName: string, lastName: string, email: string, typeChoice: int,
                        phone: string, today: int, plusMonths: (int, int) -> int)
    ensures var r := Register(s, firstName, lastName, email, typeChoice, phone, today, plusMonths);
      ((exists j :: 0 <= j < |s.members| && EqualsIgnoreCase(s.members[j].email, email)) ==> r == (s, DuplicateEmail)) &&
      (r.1 == DuplicateEmail <==> exists j :: 0 <= j < |s.members| && EqualsIgnoreCase(s.members[j].email, email)) &&
      (r.1.Registered? <==>
         (forall j :: 0 <= j < |s.members| ==> !EqualsIgnoreCase(s.members[j].email, email)) &&
         1 <= typeChoice <= |MT.AllMemberTypes|) &&
      (r.1 == DuplicateEmail || r.1 == InvalidMemberType || r.1.Registered?) &&
      (r.1 == InvalidMemberType <==>
         (forall j :: 0 <= j < |s.members| ==> !EqualsIgnoreCase(s.members[j].email, email)) &&
         !(1 <= typeChoice <= |MT.AllMemberTypes|)) &&
      (!r.1.Registered? ==> r.0 == s) &&
      (r.1.Registered? ==>
         r.1.memberId == MemberIdFor(s.nextMemberId) &&
         r.0.nextMemberId == s.nextMemberId + 1 &&
         |r.0.members| == |s.members| + 1 && r.0.members[..|s.members|] == s.members &&
         r.0.members[|s.members|].memberId == MemberIdFor(s.nextMemberId) &&
         r.0.members[|s.members|].email == email &&
         r.0.members[|s.members|].memberType == MT.AllMemberTypes[typeChoice - 1] &&
         r.0.members[|s.members|].status == MemberStatuses.Active &&
         r.0.members[|s.members|].currentBorrowedBooks == 0 && r.0.members[|s.members|].totalFinesOwed == 0 &&
         r.0.members[|s.members|].phoneNumber == (if IsBlank(phone) then None else Some(phone)) &&
         r.0.books == s.books && r.0.transactions == s.transactions &&
         r.0.nextTransactionId == s.nextTransactionId)
  {
    var r := Register(s, firstName, lastName, email, typeChoice, phone, today, plusMonths);
    if r.1.Registered? {
      assert r.0.members[..|s.members|] == s.members;
    }
  }

  /** In a consistent state, a successful deletion removes exactly the one book with the
      ISBN and keeps all others in their order; loans of the book are left as they are. Any answer other
      than "yes" (in any case) keeps the book. */
  lemma DeleteEffects(s: LibState, isbn: string, confirmation: string)
    requires Consistent(s)
    ensures var r := Delete(s, isbn, confirmation);
      r.0.members == s.members && r.0.transactions == s.transactions &&
      r.0.nextMemberId == s.nextMemberId && r.0.nextTransactionId == s.nextTransactionId &&
      (r.1 == Deleted <==> (exists j :: 0 <= j < |s.books| && s.books[j].isbn == isbn) && EqualsIgnoreCase("yes", confirmation)) &&
      (r.1 != Deleted ==> r.0 == s) &&
      (r.1 == Deleted ==>
         (exists i :: 0 <= i < |s.books| && s.books[i].isbn == isbn && r.0.books == s.books[..i] + s.books[i + 1..]) &&
         |r.0.books| == |s.books| - 1 &&
         forall b :: b in r.0.books <==> b in s.books && b.isbn != isbn)
  {
    match FirstIndex(s.books, IsbnIs(isbn))
    case None =>
    case Some(i) =>
      assert s.books[i].isbn == isbn;
      DropAtRemovesIsbn(s.books, i);
  }

  /** Taking the i-th book out of a list with unique ISBNs drops exactly the books with its ISBN. */
  lemma DropAtRemovesIsbn(books: seq<BookRec>, i: nat)
    requires i < |books| && IsbnsUnique(books)
    ensures var rest := books[..i] + books[i + 1..];
      |rest| == |books| - 1 &&
      forall b :: b in rest <==> b in books && b.isbn != books[i].isbn
  {
    var rest := books[..i] + books[i + 1..];
    assert forall j :: 0 <= j < |rest| ==> rest[j] == books[if j < i then j else j + 1];
    forall b ensures b in rest <==> b in books && b.isbn != books[i].isbn {
      if b in books && b.isbn != books[i].isbn {
        var j :| 0 <= j < |books| && books[j] == b;
        assert j != i;
        assert rest[if j < i then j else j - 1] == b;
      }
    }
  }

  /** Editing a book touches only the title, author or publisher of the book found: copies,
      status, ISBN and category of every book stay, and so do members and transactions. */
  lemma UpdateBookKeepsLending(s: LibState, isbn: string, choice: int, value: string)
    ensures var r := UpdateBook(s, isbn, choice, value);
      |r.0.books| == |s.books| &&
      (forall j :: 0 <= j < |s.books| ==>
         r.0.books[j].isbn == s.books[j].isbn && r.0.books[j].category == s.books[j].category &&
         r.0.books[j].totalCopies == s.books[j].totalCopies &&
         r.0.books[j].availableCopies == s.books[j].availableCopies && r.0.books[j].status == s.books[j].status) &&
      (forall j :: 0 <= j < |s.books| && s.books[j].isbn != isbn ==> r.0.books[j] == s.books[j]) &&
      r.0.members == s.members && r.0.transactions == s.transactions &&
      (r.1 == Updated <==> (exists j :: 0 <= j < |s.books| && s.books[j].isbn == isbn) && 1 <= choice <= 3) &&
      (r.1 != Updated ==> r.0 == s)
  {
    var r := UpdateBook(s, isbn, choice, value);
    match FirstIndex(s.books, IsbnIs(isbn))
    case None =>
    case Some(i) =>
      assert s.books[i].isbn == isbn;
  }

  /** Editing a member touches only the phone number or address of the member found: its
      ID, type, status, count and fines stay, and so do books and transactions. */
  lemma UpdateMemberKeepsLending(s: LibState, memberId: string, choice: int, value: string)
    ensures var r := UpdateMember(s, memberId, choice, value);
      |r.0.members| == |s.members| &&
      (forall j :: 0 <= j < |s.members| ==>
         r.0.members[j].memberId == s.members[j].memberId && r.0.members[j].email == s.members[j].email &&
         r.0.members[j].memberType == s.members[j].memberType && r.0.members[j].status == s.members[j].status &&
         r.0.members[j].membershipEndDate == s.members[j].membershipEndDate &&
         r.0.members[j].totalFinesOwed == s.members[j].totalFinesOwed &&
         r.0.members[j].currentBorrowedBooks == s.members[j].currentBorrowedBooks) &&
      (forall j :: 0 <= j < |s.members| && s.members[j].memberId != memberId ==> r.0.members[j] == s.members[j]) &&
      r.0.books == s.books && r.0.transactions == s.transactions &&
      (r.1 == Updated <==> (exists j :: 0 <= j < |s.members| && s.members[j].memberId == memberId) && 1 <= choice <= 2) &&
      (r.1 != Updated ==> r.0 == s)
  {
    var r := UpdateMember(s, memberId, choice, value);
    match FirstIndex(s.members, MemberIdIs(memberId))
    case None =>
    case Some(i) =>
      assert s.members[i].memberId == memberId;
  }

  // ---------------------------------------------------------------- listings

  /** Book search returns exactly the books whose lower-cased title, author or ISBN
      contains the lower-cased query. */
  lemma SearchBooksExact(books: seq<BookRec>, query: string, b: BookRec)
    ensures b in SearchBooks(books, query) <==>
            b in books && (Contains(Lower(b.title), Lower(query)) || Contains(Lower(b.author), Lower(query)) ||
                           Contains(Lower(b.isbn), Lower(query)))
  {
  }

  /** Member search returns exactly the members whose lower-cased first name, last name,
      ID or email contains the lower-cased query. */
  lemma SearchMembersExact(members: seq<MemberRec>, query: string, m: MemberRec)
    ensures m in SearchMembers(members, query) <==>
            m in members && (Contains(Lower(m.firstName), Lower(query)) || Contains(Lower(m.lastName), Lower(query)) ||
                             Contains(Lower(m.memberId), Lower(query)) || Contains(Lower(m.email), Lower(query)))
  {
  }

  /** Every listing keeps list order: the listing of two lists one after the other is
      the listing of the first followed by that of the second. */
  lemma ListingsKeepOrder(a: LibState, b: LibState, query: string, memberId: string, today: int)
    ensures SearchBooks(a.books + b.books, query) == SearchBooks(a.books, query) + SearchBooks(b.books, query)
    ensures SearchMembers(a.members + b.members, query) == SearchMembers(a.members, query) + SearchMembers(b.members, query)
    ensures History(a.transactions + b.transactions, memberId) == History(a.transactions, memberId) + History(b.transactions, memberId)
    ensures Overdue(a.transactions + b.transactions, today) == Overdue(a.transactions, today) + Overdue(b.transactions, today)
  {
    FilterAppend(a.books, b.books, BookMatches(Lower(query)));
    FilterAppend(a.members, b.members, MemberMatches(Lower(query)));
    FilterAppend(a.transactions, b.transactions, InHistory(memberId));
    FilterAppend(a.transactions, b.transactions, OverdueOn(today));
  }

  /** With a blank member ID the history is every transaction, in order. */
  lemma HistoryBlankIsAll(transactions: seq<TxnRec>, memberId: string)
    requires IsBlank(memberId)
    ensures History(transactions, memberId) == transactions
  {
    FilterAll(transactions, InHistory(memberId));
  }

  /** With any other member ID the history is exactly that member's transactions. */
  lemma HistoryOfMember(transactions: seq<TxnRec>, memberId: string, t: TxnRec)
    requires !IsBlank(memberId)
    ensures t in History(transactions, memberId) <==> t in transactions && t.memberId == memberId
  {
  }

  /** In a consistent state the overdue listing holds exactly the ACTIVE loans whose due
      date lies before today. */
  lemma OverdueExact(s: LibState, today: int, t: TxnRec)
    requires Consistent(s)
    ensures t in Overdue(s.transactions, today) <==>
            t in s.transactions && t.status == TS.Active && today > t.dueDate.value
  {
    if t in s.transactions {
      var i :| 0 <= i < |s.transactions| && s.transactions[i] == t;
      assert LoanWellFormed(s.transactions[i]);
    }
  }

  /** A book borrowed today is not overdue today: borrowing leaves the overdue listing
      as it was. */
  lemma BorrowKeepsOverdueListing(s: LibState, memberId: string, isbn: string, today: int)
    ensures Overdue(Borrow(s, memberId, isbn, today).0.transactions, today) == Overdue(s.transactions, today)
  {
    var r := Borrow(s, memberId, isbn, today);
    if r.1.BorrowedAs? {
      var t := NewTransaction(TransactionIdFor(s.nextTransactionId), memberId, isbn, TT.Borrow, today);
      assert r.0.transactions == s.transactions + [t];
      FilterAppend(s.transactions, [t], OverdueOn(today));
      FilterNone([t], OverdueOn(today));
    }
  }
}
