/** What every reachable state of the application satisfies, and the proof that the
    sample data sets it up and every operation keeps it. */
module LibraryInvariant {
  import opened Wrappers
  import opened Lists
  import opened Text
  import opened Books
  import opened Members
  import opened Transactions
  import opened LibraryModel
  import BC = BookCategories
  import MT = MemberTypes
  import TT = TransactionTypes
  import TS = TransactionStatuses

  /** Every transaction is a BORROW with a due date and no fine, either still ACTIVE with
      no return date or COMPLETED with one. */
  predicate LoanWellFormed(t: TxnRec)
  {
    t.txnType == TT.Borrow && t.fineAmount == 0 && t.dueDate.Some? &&
    ((t.status == TS.Active && t.returnDate.None?) || (t.status == TS.Completed && t.returnDate.Some?))
  }

  /** The ID is one of the first `n` member IDs handed out. */
  predicate KnownMember(memberId: string, n: nat)
  {
    exists k :: 1 <= k <= n && memberId == MemberIdFor(k)
  }

  predicate BooksValid(books: seq<BookRec>)
  {
    forall i :: 0 <= i < |books| ==> books[i].Valid()
  }

  predicate IsbnsUnique(books: seq<BookRec>)
  {
    forall i, j :: 0 <= i < j < |books| ==> books[i].isbn != books[j].isbn
  }

  /** Members are never removed, so the i-th one holds the i-th ID. */
  predicate MemberIdsInOrder(members: seq<MemberRec>)
  {
    forall i :: 0 <= i < |members| ==> members[i].memberId == MemberIdFor(i + 1)
  }

  predicate EmailsUnique(members: seq<MemberRec>)
  {
    forall i, j :: 0 <= i < j < |members| ==> !EqualsIgnoreCase(members[i].email, members[j].email)
  }

  /** A member's borrowed count is the number of its ACTIVE loans, within the type's
      limit, and nothing is ever owed. */
  predicate MemberAccounted(m: MemberRec, transactions: seq<TxnRec>)
  {
    m.Valid() && m.totalFinesOwed == 0 && m.currentBorrowedBooks == Count(transactions, ActiveLoanOf(m.memberId))
  }

  predicate MembersAccounted(members: seq<MemberRec>, transactions: seq<TxnRec>)
  {
    forall i :: 0 <= i < |members| ==> MemberAccounted(members[i], transactions)
  }

  /** Transactions are never removed, so the i-th one holds the i-th ID. */
  predicate TxnIdsInOrder(transactions: seq<TxnRec>)
  {
    forall i :: 0 <= i < |transactions| ==> transactions[i].transactionId == TransactionIdFor(i + 1)
  }

  predicate LoansWellFormed(transactions: seq<TxnRec>)
  {
    forall i :: 0 <= i < |transactions| ==> LoanWellFormed(transactions[i])
  }

  predicate LoansKnown(transactions: seq<TxnRec>, n: nat)
  {
    forall i :: 0 <= i < |transactions| ==> KnownMember(transactions[i].memberId, n)
  }

  predicate Consistent(s: LibState)
  {
    BooksValid(s.books) && IsbnsUnique(s.books) &&
    MemberIdsInOrder(s.members) && EmailsUnique(s.members) && s.nextMemberId == |s.members| + 1 &&
    MembersAccounted(s.members, s.transactions) &&
    TxnIdsInOrder(s.transactions) && LoansWellFormed(s.transactions) && s.nextTransactionId == |s.transactions| + 1 &&
    LoansKnown(s.transactions, |s.members|)
  }

  /** The state the application starts in satisfies the invariant. */
  lemma SampleConsistent(today: int, plusMonths: (int, int) -> int)
    ensures Consistent(SampleState(today, plusMonths))
  {
    var s := SampleState(today, plusMonths);
    NotEqualIgnoringCase(s.members[0].email, s.members[1].email, 0);
    CountZero(s.transactions, ActiveLoanOf(s.members[0].memberId));
    CountZero(s.transactions, ActiveLoanOf(s.members[1].memberId));
  }

  /** An ID that is not among the first `n` has no loans. */
  lemma UnknownMemberHasNoLoans(transactions: seq<TxnRec>, n: nat)
    requires LoansKnown(transactions, n)
    ensures Count(transactions, ActiveLoanOf(MemberIdFor(n + 1))) == 0
  {
    forall j | 0 <= j < |transactions|
      ensures !ActiveLoanOf(MemberIdFor(n + 1))(transactions[j])
    {
      assert KnownMember(transactions[j].memberId, n);
      var k :| 1 <= k <= n && transactions[j].memberId == MemberIdFor(k);
      MemberIdInjective(k, n + 1);
    }
    CountZero(transactions, ActiveLoanOf(MemberIdFor(n + 1)));
  }

  /** Every ID among the first `n` is also among the first `n + 1`. */
  lemma LoansKnownGrow(transactions: seq<TxnRec>, n: nat)
    requires LoansKnown(transactions, n)
    ensures LoansKnown(transactions, n + 1)
  {
    forall i | 0 <= i < |transactions|
      ensures KnownMember(transactions[i].memberId, n + 1)
    {
      assert KnownMember(transactions[i].memberId, n);
      var k :| 1 <= k <= n && transactions[i].memberId == MemberIdFor(k);
    }
  }

  /** Appending loan `t` of member `mi`, whose count went up by one, keeps every member's
      count equal to its loans. */
  lemma BorrowKeepsAccounts(s: LibState, mi: nat, m': MemberRec, t: TxnRec)
    requires Consistent(s) && mi < |s.members|
    requires m'.memberId == s.members[mi].memberId && m'.Valid() && m'.totalFinesOwed == 0
    requires m'.currentBorrowedBooks == s.members[mi].currentBorrowedBooks + 1
    requires ActiveLoanOf(m'.memberId)(t)
    ensures MembersAccounted(s.members[mi := m'], s.transactions + [t])
  {
    var members' := s.members[mi := m'];
    forall i | 0 <= i < |members'|
      ensures MemberAccounted(members'[i], s.transactions + [t])
    {
      CountAppend(s.transactions, t, ActiveLoanOf(s.members[i].memberId));
      if i != mi {
        MemberIdInjective(i + 1, mi + 1);
      }
    }
  }

  /** Appending a fresh loan of a known member under the next ID keeps the transaction
      list well formed. */
  lemma BorrowKeepsLoans(s: LibState, t: TxnRec)
    requires Consistent(s) && LoanWellFormed(t) && KnownMember(t.memberId, |s.members|)
    requires t.transactionId == TransactionIdFor(s.nextTransactionId)
    ensures var txns := s.transactions + [t];
      LoansWellFormed(txns) && TxnIdsInOrder(txns) && LoansKnown(txns, |s.members|)
  {
  }

  /** Lending book `bi` to member `mi`, whose record becomes `m'`, under loan `t` gives a
      consistent state. */
  lemma BorrowStepConsistent(s: LibState, mi: nat, bi: nat, m': MemberRec, t: TxnRec)
    requires Consistent(s) && mi < |s.members| && bi < |s.books|
    requires m'.memberId == s.members[mi].memberId && m'.email == s.members[mi].email
    requires m'.Valid() && m'.totalFinesOwed == 0
    requires m'.currentBorrowedBooks == s.members[mi].currentBorrowedBooks + 1
    requires ActiveLoanOf(m'.memberId)(t) && LoanWellFormed(t)
    requires t.transactionId == TransactionIdFor(s.nextTransactionId)
    ensures Consistent(s.(books := s.books[bi := s.books[bi].BorrowCopy()],
                          members := s.members[mi := m'],
                          transactions := s.transactions + [t],
                          nextTransactionId := s.nextTransactionId + 1))
  {
    ReplaceBookKeepsBooks(s.books, bi, s.books[bi].BorrowCopy());
    ReplaceMemberKeepsIds(s.members, mi, m');
    BorrowKeepsAccounts(s, mi, m', t);
    assert KnownMember(t.memberId, |s.members|);
    BorrowKeepsLoans(s, t);
  }

  lemma BorrowPreservesConsistent(s: LibState, memberId: string, isbn: string, today: int)
    requires Consistent(s)
    ensures Consistent(Borrow(s, memberId, isbn, today).0)
  {
    var r := Borrow(s, memberId, isbn, today);
    if r.1.BorrowedAs? {
      var mi := FirstIndex(s.members, MemberIdIs(memberId)).value;
      var bi := FirstIndex(s.books, IsbnIs(isbn)).value;
      var t := NewTransaction(TransactionIdFor(s.nextTransactionId), memberId, isbn, TT.Borrow, today);
      var m' := s.members[mi].BorrowBook(today).value;
      assert r.0 == s.(books := s.books[bi := s.books[bi].BorrowCopy()],
                       members := s.members[mi := m'],
                       transactions := s.transactions + [t],
                       nextTransactionId := s.nextTransactionId + 1);
      BorrowStepConsistent(s, mi, bi, m', t);
    }
  }

  /** Replacing a book by a valid one with the same ISBN keeps the catalogue consistent. */
  lemma ReplaceBookKeepsBooks(books: seq<BookRec>, i: nat, b': BookRec)
    requires BooksValid(books) && IsbnsUnique(books) && i < |books|
    requires b'.Valid() && b'.isbn == books[i].isbn
    ensures BooksValid(books[i := b']) && IsbnsUnique(books[i := b'])
  {
  }

  /** Replacing a member by one with the same ID and email keeps IDs in order and
      emails unique. */
  lemma ReplaceMemberKeepsIds(members: seq<MemberRec>, i: nat, m': MemberRec)
    requires MemberIdsInOrder(members) && EmailsUnique(members) && i < |members|
    requires m'.memberId == members[i].memberId && m'.email == members[i].email
    ensures MemberIdsInOrder(members[i := m']) && EmailsUnique(members[i := m'])
  {
  }

  /** Completing loan `ti` of member `mi` keeps every member's count equal to its loans. */
  lemma ReturnKeepsAccounts(s: LibState, mi: nat, ti: nat, today: int)
    requires Consistent(s) && mi < |s.members| && ti < |s.transactions|
    requires ActiveLoanOf(s.members[mi].memberId)(s.transactions[ti])
    ensures MembersAccounted(s.members[mi := s.members[mi].ReturnBook()],
                             s.transactions[ti := s.transactions[ti].CompleteReturn(today)])
  {
    var t := s.transactions[ti].CompleteReturn(today);
    var members' := s.members[mi := s.members[mi].ReturnBook()];
    forall i | 0 <= i < |members'|
      ensures MemberAccounted(members'[i], s.transactions[ti := t])
    {
      CountUpdate(s.transactions, ti, t, ActiveLoanOf(s.members[i].memberId));
      if i != mi {
        MemberIdInjective(i + 1, mi + 1);
      }
    }
  }

  /** Completing loan `ti` keeps the transaction list well formed. */
  lemma ReturnKeepsLoans(s: LibState, ti: nat, today: int)
    requires Consistent(s) && ti < |s.transactions| && s.transactions[ti].status == TS.Active
    ensures var txns := s.transactions[ti := s.transactions[ti].CompleteReturn(today)];
      LoansWellFormed(txns) && TxnIdsInOrder(txns) && LoansKnown(txns, |s.members|)
  {
  }

  /** Returning the loan `ti` of member `mi` for book `bi` gives a consistent state. */
  lemma ReturnStepConsistent(s: LibState, mi: nat, bi: nat, ti: nat, today: int)
    requires Consistent(s) && mi < |s.members| && bi < |s.books| && ti < |s.transactions|
    requires ActiveLoanOf(s.members[mi].memberId)(s.transactions[ti])
    ensures Consistent(s.(books := s.books[bi := s.books[bi].ReturnCopy()],
                          members := s.members[mi := s.members[mi].ReturnBook()],
                          transactions := s.transactions[ti := s.transactions[ti].CompleteReturn(today)]))
  {
    ReplaceBookKeepsBooks(s.books, bi, s.books[bi].ReturnCopy());
    ReplaceMemberKeepsIds(s.members, mi, s.members[mi].ReturnBook());
    ReturnKeepsAccounts(s, mi, ti, today);
    ReturnKeepsLoans(s, ti, today);
  }

  lemma ReturnPreservesConsistent(s: LibState, memberId: string, isbn: string, today: int)
    requires Consistent(s)
    ensures Consistent(Return(s, memberId, isbn, today).0)
  {
    var r := Return(s, memberId, isbn, today);
    if r.1 == ReturnedOnTime || r.1.ReturnedWithFine? {
      var mi := FirstIndex(s.members, MemberIdIs(memberId)).value;
      var bi := FirstIndex(s.books, IsbnIs(isbn)).value;
      var ti := FirstIndex(s.transactions, ActiveLoanFor(memberId, isbn)).value;
      assert LoanWellFormed(s.transactions[ti]);
      assert s.transactions[ti].CompleteReturn(today).fineAmount == 0;
      assert r.0 == s.(books := s.books[bi := s.books[bi].ReturnCopy()],
                       members := s.members[mi := s.members[mi].ReturnBook()],
                       transactions := s.transactions[ti := s.transactions[ti].CompleteReturn(today)]);
      ReturnStepConsistent(s, mi, bi, ti, today);
    }
  }

  /** Appending a valid book with a new ISBN gives a consistent state. */
  lemma AddBookStepConsistent(s: LibState, b: BookRec)
    requires Consistent(s) && b.Valid()
    requires forall j :: 0 <= j < |s.books| ==> s.books[j].isbn != b.isbn
    ensures Consistent(s.(books := s.books + [b]))
  {
  }

  lemma AddBookPreservesConsistent(s: LibState, isbn: string, title: string, author: string,
                                   categoryChoice: int, publisher: string, year: Option<int>)
    requires Consistent(s)
    ensures Consistent(AddBook(s, isbn, title, author, categoryChoice, publisher, year).0)
  {
    var r := AddBook(s, isbn, title, author, categoryChoice, publisher, year);
    if r.1 == BookAdded {
      var b := r.0.books[|s.books|];
      assert r.0 == s.(books := s.books + [b]);
      assert b.isbn == isbn && b.Valid();
      AddBookStepConsistent(s, b);
    }
  }

  /** Appending a new member with the next ID, no loans, no fines and an email not in use
      gives a consistent state. */
  lemma RegisterStepConsistent(s: LibState, m: MemberRec)
    requires Consistent(s) && m.memberId == MemberIdFor(|s.members| + 1)
    requires m.Valid() && m.totalFinesOwed == 0 && m.currentBorrowedBooks == 0
    requires forall j :: 0 <= j < |s.members| ==> !EqualsIgnoreCase(s.members[j].email, m.email)
    ensures Consistent(s.(members := s.members + [m], nextMemberId := s.nextMemberId + 1))
  {
    AppendMemberKeepsIds(s.members, m);
    UnknownMemberHasNoLoans(s.transactions, |s.members|);
    assert MemberAccounted(m, s.transactions);
    AppendMemberKeepsAccounts(s.members, s.transactions, m);
    LoansKnownGrow(s.transactions, |s.members|);
  }

  /** Appending the next member with an unused email keeps IDs in order and emails unique. */
  lemma AppendMemberKeepsIds(members: seq<MemberRec>, m: MemberRec)
    requires MemberIdsInOrder(members) && EmailsUnique(members)
    requires m.memberId == MemberIdFor(|members| + 1)
    requires forall j :: 0 <= j < |members| ==> !EqualsIgnoreCase(members[j].email, m.email)
    ensures MemberIdsInOrder(members + [m]) && EmailsUnique(members + [m])
  {
  }

  lemma AppendMemberKeepsAccounts(members: seq<MemberRec>, transactions: seq<TxnRec>, m: MemberRec)
    requires MembersAccounted(members, transactions) && MemberAccounted(m, transactions)
    ensures MembersAccounted(members + [m], transactions)
  {
  }

  lemma RegisterPreservesConsistent(s: LibState, firstName: string, lastName: string, email: string,
                                    typeChoice: int, phone: string, today: int, plusMonths: (int, int) -> int)
    requires Consistent(s)
    ensures Consistent(Register(s, firstName, lastName, email, typeChoice, phone, today, plusMonths).0)
  {
    var r := Register(s, firstName, lastName, email, typeChoice, phone, today, plusMonths);
    if r.1.Registered? {
      var n := |s.members|;
      var m := r.0.members[n];
      assert r.0 == s.(members := s.members + [m], nextMemberId := s.nextMemberId + 1);
      assert m.memberId == MemberIdFor(n + 1) && m.email == email;
      assert m.Valid() && m.totalFinesOwed == 0 && m.currentBorrowedBooks == 0;
      assert forall j :: 0 <= j < n ==> !EqualsIgnoreCase(s.members[j].email, email);
      RegisterStepConsistent(s, m);
    }
  }

  /** Removing the i-th book gives a consistent state. */
  lemma DeleteStepConsistent(s: LibState, i: nat)
    requires Consistent(s) && i < |s.books|
    ensures Consistent(s.(books := s.books[..i] + s.books[i + 1..]))
  {
    var books' := s.books[..i] + s.books[i + 1..];
    assert forall j :: 0 <= j < |books'| ==> books'[j] == s.books[if j < i then j else j + 1];
  }

  lemma DeletePreservesConsistent(s: LibState, isbn: string, confirmation: string)
    requires Consistent(s)
    ensures Consistent(Delete(s, isbn, confirmation).0)
  {
    var r := Delete(s, isbn, confirmation);
    if r.1 == Deleted {
      var i := FirstIndex(s.books, IsbnIs(isbn)).value;
      assert r.0 == s.(books := s.books[..i] + s.books[i + 1..]);
      DeleteStepConsistent(s, i);
    }
  }

  lemma UpdateBookPreservesConsistent(s: LibState, isbn: string, choice: int, value: string)
    requires Consistent(s)
    ensures Consistent(UpdateBook(s, isbn, choice, value).0)
  {
    if FirstIndex(s.books, IsbnIs(isbn)).Some? && 1 <= choice <= 3 {
      var i := FirstIndex(s.books, IsbnIs(isbn)).value;
      var b := s.books[i];
      var b' := if choice == 1 then b.(title := value)
                else if choice == 2 then b.(author := value)
                else b.(publisher := Some(value));
      assert UpdateBook(s, isbn, choice, value).0 == s.(books := s.books[i := b']);
      ReplaceBookKeepsBooks(s.books, i, b');
    }
  }

  lemma UpdateMemberPreservesConsistent(s: LibState, memberId: string, choice: int, value: string)
    requires Consistent(s)
    ensures Consistent(UpdateMember(s, memberId, choice, value).0)
  {
    if FirstIndex(s.members, MemberIdIs(memberId)).Some? && 1 <= choice <= 2 {
      var i := FirstIndex(s.members, MemberIdIs(memberId)).value;
      var m := s.members[i];
      var m' := if choice == 1 then m.(phoneNumber := Some(value)) else m.(address := Some(value));
      assert UpdateMember(s, memberId, choice, value).0 == s.(members := s.members[i := m']);
      ReplaceMemberKeepsIds(s.members, i, m');
      assert forall j :: 0 <= j < |s.members| ==> s.members[i := m'][j] == (if j == i then m' else s.members[j]);
    }
  }
}
