/** The application object: three lists of objects updated in place and two ID counters
    (LibraryManagementApplication.java). Each operation is proved to do what the matching
    function of the value model does. */
module LibraryApp {
  import opened Wrappers
  import opened Lists
  import opened Text
  import opened Books
  import opened Members
  import opened Transactions
  import opened LibraryModel
  import opened LibraryInvariant
  import BC = BookCategories
  import MT = MemberTypes
  import TT = TransactionTypes
  import TS = TransactionStatuses

  /** The records of a list of objects, in list order. The three classes share no common
      type (the model has no traits), so each list gets its own copy of this function. */
  function BookRecs(bs: seq<Book>): (r: seq<BookRec>)
    reads bs
    ensures |r| == |bs| && forall i :: 0 <= i < |bs| ==> r[i] == bs[i].Rec()
  {
    seq(|bs|, i reads bs requires 0 <= i < |bs| => bs[i].Rec())
  }

  function MemberRecs(ms: seq<Member>): (r: seq<MemberRec>)
    reads ms
    ensures |r| == |ms| && forall i :: 0 <= i < |ms| ==> r[i] == ms[i].Rec()
  {
    seq(|ms|, i reads ms requires 0 <= i < |ms| => ms[i].Rec())
  }

  function TxnRecs(ts: seq<Transaction>): (r: seq<TxnRec>)
    reads ts
    ensures |r| == |ts| && forall i :: 0 <= i < |ts| ==> r[i] == ts[i].Rec()
  {
    seq(|ts|, i reads ts requires 0 <= i < |ts| => ts[i].Rec())
  }

  /** Appending an object appends its record. */
  lemma BookRecsAppend(bs: seq<Book>, b: Book)
    ensures BookRecs(bs + [b]) == BookRecs(bs) + [b.Rec()]
  {
    assert forall j :: 0 <= j < |bs| ==> (bs + [b])[j] == bs[j];
  }

  lemma MemberRecsAppend(ms: seq<Member>, m: Member)
    ensures MemberRecs(ms + [m]) == MemberRecs(ms) + [m.Rec()]
  {
    assert forall j :: 0 <= j < |ms| ==> (ms + [m])[j] == ms[j];
  }

  lemma TxnRecsAppend(ts: seq<Transaction>, t: Transaction)
    ensures TxnRecs(ts + [t]) == TxnRecs(ts) + [t.Rec()]
  {
    assert forall j :: 0 <= j < |ts| ==> (ts + [t])[j] == ts[j];
  }

  /** Removing the i-th object removes the i-th record. */
  lemma BookRecsRemove(bs: seq<Book>, i: nat)
    requires i < |bs|
    ensures BookRecs(bs[..i] + bs[i + 1..]) == BookRecs(bs)[..i] + BookRecs(bs)[i + 1..]
  {
    var rest := bs[..i] + bs[i + 1..];
    assert forall j :: 0 <= j < |rest| ==> rest[j] == bs[if j < i then j else j + 1];
  }

  /** A new book with the publisher and the year set when given, as `addNewBook` and the
      sample data build one. */
  method CreateBook(isbn: string, title: string, author: string, category: BC.BookCategory,
                    publisher: Option<string>, year: Option<int>) returns (book: Book)
    ensures fresh(book)
    ensures book.Rec() == NewBook(isbn, title, author, category).(publisher := publisher, yearPublished := year)
  {
    book := new Book(isbn, title, author, category);
    if publisher.Some? {
      book.SetPublisher(publisher.value);
    }
    if year.Some? {
      book.SetYearPublished(year.value);
    }
  }

  /** A new member with the phone number set when given, as `registerNewMember` and the
      sample data build one. */
  method CreateMember(memberId: string, firstName: string, lastName: string, email: string,
                      memberType: MT.MemberType, phone: Option<string>, today: int, plusMonths: (int, int) -> int)
    returns (member: Member)
    ensures fresh(member)
    ensures member.Rec() == NewMember(memberId, firstName, lastName, email, memberType, today, plusMonths).(phoneNumber := phone)
  {
    member := new Member(memberId, firstName, lastName, email, memberType, today, plusMonths);
    if phone.Some? {
      member.SetPhoneNumber(phone.value);
    }
  }

  class Library {
    var books: seq<Book>
    var members: seq<Member>
    var transactions: seq<Transaction>
    var nextMemberId: nat
    var nextTransactionId: nat

    /** The lists and counters as a value of the model. */
    function State(): LibState
      reads this, books, members, transactions
    {
      LibState(BookRecs(books), MemberRecs(members), TxnRecs(transactions), nextMemberId, nextTransactionId)
    }

    /** No object sits twice in a list, and the state satisfies the model's invariant. */
    ghost predicate Valid()
      reads this, books, members, transactions
    {
      Distinct(books) && Distinct(members) && Distinct(transactions) && Consistent(State())
    }

    /** When the lists stay and no object of a list but the k-th changes, only the k-th
        record changes. */
    twostate lemma BooksFrame(k: int)
      requires books == old(books)
      requires forall j :: 0 <= j < |books| && j != k ==> unchanged(books[j])
      ensures 0 <= k < |books| ==> BookRecs(books) == old(BookRecs(books))[k := books[k].Rec()]
      ensures !(0 <= k < |books|) ==> BookRecs(books) == old(BookRecs(books))
    {
    }

    twostate lemma MembersFrame(k: int)
      requires members == old(members)
      requires forall j :: 0 <= j < |members| && j != k ==> unchanged(members[j])
      ensures 0 <= k < |members| ==> MemberRecs(members) == old(MemberRecs(members))[k := members[k].Rec()]
      ensures !(0 <= k < |members|) ==> MemberRecs(members) == old(MemberRecs(members))
    {
    }

    twostate lemma TransactionsFrame(k: int)
      requires transactions == old(transactions)
      requires forall j :: 0 <= j < |transactions| && j != k ==> unchanged(transactions[j])
      ensures 0 <= k < |transactions| ==> TxnRecs(transactions) == old(TxnRecs(transactions))[k := transactions[k].Rec()]
      ensures !(0 <= k < |transactions|) ==> TxnRecs(transactions) == old(TxnRecs(transactions))
    {
    }

    /** When only the k-th book changed, the state differs in that record alone. */
    twostate lemma BookEdited(k: int)
      requires 0 <= k < |books| && books == old(books)
      requires forall j :: 0 <= j < |books| && j != k ==> unchanged(books[j])
      requires unchanged(this) && forall m :: m in members ==> unchanged(m)
      requires forall t :: t in transactions ==> unchanged(t)
      ensures State() == old(State()).(books := old(State().books)[k := books[k].Rec()])
    {
      BooksFrame(k);
      assert forall j :: 0 <= j < |members| ==> members[j] in members;
      MembersFrame(-1);
      assert forall j :: 0 <= j < |transactions| ==> transactions[j] in transactions;
      TransactionsFrame(-1);
    }

    /** When only the k-th member changed, the state differs in that record alone. */
    twostate lemma MemberEdited(k: int)
      requires 0 <= k < |members| && members == old(members)
      requires forall j :: 0 <= j < |members| && j != k ==> unchanged(members[j])
      requires unchanged(this) && forall b :: b in books ==> unchanged(b)
      requires forall t :: t in transactions ==> unchanged(t)
      ensures State() == old(State()).(members := old(State().members)[k := members[k].Rec()])
    {
      MembersFrame(k);
      assert forall j :: 0 <= j < |books| ==> books[j] in books;
      BooksFrame(-1);
      assert forall j :: 0 <= j < |transactions| ==> transactions[j] in transactions;
      TransactionsFrame(-1);
    }

    /** The constructor, which loads the sample data. */
    constructor (today: int, plusMonths: (int, int) -> int)
      ensures Valid() && State() == SampleState(today, plusMonths)
    {
      books := [];
      members := [];
      transactions := [];
      nextMemberId := 1;
      nextTransactionId := 1;
      new;
      InitializeWithSampleData(today, plusMonths);
      SampleConsistent(today, plusMonths);
    }

    /** `initializeWithSampleData`. */
    method InitializeWithSampleData(today: int, plusMonths: (int, int) -> int)
      requires books == [] && members == [] && transactions == [] && nextMemberId == 1 && nextTransactionId == 1
      modifies this
      ensures Distinct(books) && Distinct(members) && Distinct(transactions)
      ensures State() == SampleState(today, plusMonths)
    {
      ghost var sample := SampleState(today, plusMonths);
      assert State() == LibState([], [], [], 1, 1);
      AddSampleBook("978-0134685991", "Effective Java", "Joshua Bloch", BC.ComputerProgramming, "Addison-Wesley", 2017);
      AddSampleBook("978-0321356680", "Clean Code", "Robert Martin", BC.ComputerProgramming, "Prentice Hall", 2008);
      assert State() == sample.(members := [], nextMemberId := 1);
      AddSampleMember("John", "Doe", "john.doe@email.com", MT.Student, "+1-555-0101", today, plusMonths);
      assert State() == sample.(members := sample.members[..1], nextMemberId := 2);
      AddSampleMember("Jane", "Smith", "jane.smith@email.com", MT.Faculty, "+1-555-0102", today, plusMonths);
    }

    /** One sample book: created, given a publisher and a year, appended. */
    method AddSampleBook(isbn: string, title: string, author: string, category: BC.BookCategory,
                         publisher: string, year: int)
      requires Distinct(books)
      modifies this
      ensures Distinct(books) && members == old(members) && transactions == old(transactions)
      ensures State() == old(State()).(books := old(State().books) +
                [NewBook(isbn, title, author, category).(publisher := Some(publisher), yearPublished := Some(year))])
    {
      var book := CreateBook(isbn, title, author, category, Some(publisher), Some(year));
      AppendBook(book);
    }

    /** One sample member: created with the next MEM id, given a phone number, appended. */
    method AddSampleMember(firstName: string, lastName: string, email: string, memberType: MT.MemberType,
                           phone: string, today: int, plusMonths: (int, int) -> int)
      requires Distinct(members)
      modifies this
      ensures Distinct(members) && books == old(books) && transactions == old(transactions)
      ensures State() == old(State()).(members := old(State().members) +
                [NewMember(MemberIdFor(old(nextMemberId)), firstName, lastName, email, memberType, today, plusMonths)
                   .(phoneNumber := Some(phone))],
                nextMemberId := old(nextMemberId) + 1)
    {
      var memberId := MemberIdFor(nextMemberId);
      nextMemberId := nextMemberId + 1;
      var member := CreateMember(memberId, firstName, lastName, email, memberType, Some(phone), today, plusMonths);
      AppendMember(member);
    }

    /** `books.add`. */
    method AppendBook(book: Book)
      requires Distinct(books) && book !in books
      modifies this
      ensures books == old(books) + [book] && Distinct(books)
      ensures members == old(members) && transactions == old(transactions)
      ensures nextMemberId == old(nextMemberId) && nextTransactionId == old(nextTransactionId)
      ensures BookRecs(books) == old(BookRecs(books)) + [book.Rec()]
      ensures MemberRecs(members) == old(MemberRecs(members)) && TxnRecs(transactions) == old(TxnRecs(transactions))
    {
      books := books + [book];
      BookRecsAppend(old(books), book);
      assert BookRecs(old(books)) == old(BookRecs(books));
    }

    /** `members.add`. */
    method AppendMember(member: Member)
      requires Distinct(members) && member !in members
      modifies this
      ensures members == old(members) + [member] && Distinct(members)
      ensures books == old(books) && transactions == old(transactions)
      ensures nextMemberId == old(nextMemberId) && nextTransactionId == old(nextTransactionId)
      ensures MemberRecs(members) == old(MemberRecs(members)) + [member.Rec()]
      ensures BookRecs(books) == old(BookRecs(books)) && TxnRecs(transactions) == old(TxnRecs(transactions))
    {
      members := members + [member];
      MemberRecsAppend(old(members), member);
      assert MemberRecs(old(members)) == old(MemberRecs(members));
    }

    // ------------------------------------------------------------ lookups

    /** `findBookByIsbn`: the first book with exactly this ISBN, or null. */
    method FindBookByIsbn(isbn: string) returns (book: Book?)
      ensures State() == old(State())
      ensures var f := FirstIndex(BookRecs(books), IsbnIs(isbn));
        (book == null <==> f.None?) && (book != null ==> f.value < |books| && book == books[f.value])
    {
      var i := 0;
      while i < |books|
        invariant 0 <= i <= |books|
        invariant forall j :: 0 <= j < i ==> !IsbnIs(isbn)(BookRecs(books)[j])
      {
        if books[i].isbn == isbn {
          assert IsbnIs(isbn)(BookRecs(books)[i]);
          return books[i];
        }
        i := i + 1;
      }
      return null;
    }

    /** `findMemberById`: the first member with exactly this ID, or null. */
    method FindMemberById(memberId: string) returns (member: Member?)
      ensures State() == old(State())
      ensures var f := FirstIndex(MemberRecs(members), MemberIdIs(memberId));
        (member == null <==> f.None?) && (member != null ==> f.value < |members| && member == members[f.value])
    {
      var i := 0;
      while i < |members|
        invariant 0 <= i <= |members|
        invariant forall j :: 0 <= j < i ==> !MemberIdIs(memberId)(MemberRecs(members)[j])
      {
        if members[i].memberId == memberId {
          assert MemberIdIs(memberId)(MemberRecs(members)[i]);
          return members[i];
        }
        i := i + 1;
      }
      return null;
    }

    /** The scan in `returnBook`: the first ACTIVE BORROW of this book by this member, or null. */
    method FindActiveBorrow(memberId: string, isbn: string) returns (loan: Transaction?)
      ensures State() == old(State())
      ensures var f := FirstIndex(TxnRecs(transactions), ActiveLoanFor(memberId, isbn));
        (loan == null <==> f.None?) && (loan != null ==> f.value < |transactions| && loan == transactions[f.value])
    {
      var i := 0;
      while i < |transactions|
        invariant 0 <= i <= |transactions|
        invariant forall j :: 0 <= j < i ==> !ActiveLoanFor(memberId, isbn)(TxnRecs(transactions)[j])
      {
        var t := transactions[i];
        if t.memberId == memberId && t.bookIsbn == isbn && t.txnType == TT.Borrow && t.status == TS.Active {
          assert ActiveLoanFor(memberId, isbn)(TxnRecs(transactions)[i]);
          return t;
        }
        i := i + 1;
      }
      return null;
    }

    /** The duplicate scan in `registerNewMember`: does any member have this email,
        ignoring case? */
    method EmailInUse(email: string) returns (taken: bool)
      ensures State() == old(State())
      ensures taken <==> FirstIndex(MemberRecs(members), EmailMatches(email)).Some?
    {
      var i := 0;
      while i < |members|
        invariant 0 <= i <= |members|
        invariant forall j :: 0 <= j < i ==> !EmailMatches(email)(MemberRecs(members)[j])
      {
        if EqualsIgnoreCase(members[i].email, email) {
          assert EmailMatches(email)(MemberRecs(members)[i]);
          return true;
        }
        i := i + 1;
      }
      return false;
    }

    // ------------------------------------------------------------ lending

    /** `borrowBook`. */
    method BorrowBook(memberId: string, isbn: string, today: int) returns (outcome: Outcome)
      requires Valid()
      modifies this, books, members
      ensures Valid()
      ensures (State(), outcome) == Borrow(old(State()), memberId, isbn, today)
    {
      ghost var s := State();
      assert Consistent(s);
      var member := FindMemberById(memberId);
      if member == null {
        return MemberNotFound;
      }
      if !member.CanBorrowBooks(today) {
        return MemberCannotBorrow;
      }
      var book := FindBookByIsbn(isbn);
      if book == null {
        return BookNotFound;
      }
      if !book.IsAvailable() {
        return BookNotAvailable;
      }
      ghost var mi := FirstIndex(s.members, MemberIdIs(memberId)).value;
      ghost var bi := FirstIndex(s.books, IsbnIs(isbn)).value;
      var transactionId := LendCopy(member, book, s, mi, bi, memberId, isbn, today);
      outcome := BorrowedAs(transactionId);
      BorrowCommits(s, memberId, isbn, today, mi, bi);
      BorrowPreservesConsistent(s, memberId, isbn, today);
    }

    /** The commit of `borrowBook`, once every check has passed: a transaction with the
        next TXN id, one copy out, one more book on the member, the transaction recorded. */
    method LendCopy(member: Member, book: Book, ghost s: LibState, ghost mi: nat, ghost bi: nat,
                    memberId: string, isbn: string, today: int) returns (transactionId: string)
      requires s == State()
      requires mi < |members| && members[mi] == member && Distinct(members)
      requires bi < |books| && books[bi] == book && Distinct(books)
      requires Distinct(transactions)
      requires member.Rec().CanBorrowBooks(today)
      modifies this, book, member
      ensures books == old(books) && members == old(members) && Distinct(transactions)
      ensures transactionId == TransactionIdFor(s.nextTransactionId)
      ensures State() == s.(books := s.books[bi := s.books[bi].BorrowCopy()],
                            members := s.members[mi := s.members[mi].BorrowBook(today).value],
                            transactions := s.transactions + [NewTransaction(transactionId, memberId, isbn, TT.Borrow, today)],
                            nextTransactionId := s.nextTransactionId + 1)
    {
      var transaction := OpenLoan(memberId, isbn, today);
      transactionId := transaction.transactionId;
      LendTo(member, book, s, mi, bi, today);
      AppendTransaction(transaction);
    }

    /** A new BORROW transaction under the next TXN id. */
    method OpenLoan(memberId: string, isbn: string, today: int) returns (transaction: Transaction)
      modifies this
      ensures fresh(transaction)
      ensures transaction.Rec() == NewTransaction(TransactionIdFor(old(nextTransactionId)), memberId, isbn, TT.Borrow, today)
      ensures nextTransactionId == old(nextTransactionId) + 1 && nextMemberId == old(nextMemberId)
      ensures books == old(books) && members == old(members) && transactions == old(transactions)
      ensures BookRecs(books) == old(BookRecs(books)) && MemberRecs(members) == old(MemberRecs(members))
      ensures TxnRecs(transactions) == old(TxnRecs(transactions))
    {
      var transactionId := TransactionIdFor(nextTransactionId);
      nextTransactionId := nextTransactionId + 1;
      transaction := new Transaction(transactionId, memberId, isbn, TT.Borrow, today);
    }

    /** `book.borrowCopy()` then `member.borrowBook()`; the member's check has passed, so
        the second does not throw. */
    method LendTo(member: Member, book: Book, ghost s: LibState, ghost mi: nat, ghost bi: nat, today: int)
      requires s.books == BookRecs(books) && s.members == MemberRecs(members)
      requires mi < |members| && members[mi] == member && Distinct(members)
      requires bi < |books| && books[bi] == book && Distinct(books)
      requires member.Rec().CanBorrowBooks(today)
      modifies book, member
      ensures BookRecs(books) == s.books[bi := s.books[bi].BorrowCopy()]
      ensures MemberRecs(members) == s.members[mi := s.members[mi].BorrowBook(today).value]
      ensures TxnRecs(transactions) == old(TxnRecs(transactions))
    {
      book.BorrowCopy();
      var thrown := member.BorrowBook(today);
      assert thrown == None;
      BooksFrame(bi);
      MembersFrame(mi);
    }

    /** `transactions.add`. */
    method AppendTransaction(transaction: Transaction)
      requires Distinct(transactions) && transaction !in transactions
      modifies this
      ensures books == old(books) && members == old(members) && Distinct(transactions)
      ensures nextMemberId == old(nextMemberId) && nextTransactionId == old(nextTransactionId)
      ensures TxnRecs(transactions) == old(TxnRecs(transactions)) + [transaction.Rec()]
      ensures BookRecs(books) == old(BookRecs(books)) && MemberRecs(members) == old(MemberRecs(members))
    {
      transactions := transactions + [transaction];
      TxnRecsAppend(old(transactions), transaction);
      assert TxnRecs(old(transactions)) == old(TxnRecs(transactions));
    }

    /** `returnBook`. */
    method ReturnBook(memberId: string, isbn: string, today: int) returns (outcome: Outcome)
      requires Valid()
      modifies books, members, transactions
      ensures Valid()
      ensures (State(), outcome) == Return(old(State()), memberId, isbn, today)
    {
      ghost var s := State();
      var member := FindMemberById(memberId);
      if member == null {
        return MemberNotFound;
      }
      var book := FindBookByIsbn(isbn);
      if book == null {
        return BookNotFound;
      }
      var borrowTransaction := FindActiveBorrow(memberId, isbn);
      if borrowTransaction == null {
        return NoActiveLoan;
      }
      outcome := FinishReturn(memberId, isbn, today, member, book, borrowTransaction);
    }

    /** The second half of `returnBook`, once member, book and loan are found. */
    method FinishReturn(memberId: string, isbn: string, today: int, member: Member, book: Book, loan: Transaction)
      returns (outcome: Outcome)
      requires Valid()
      requires var f := FirstIndex(MemberRecs(members), MemberIdIs(memberId)); f.Some? && f.value < |members| && members[f.value] == member
      requires var f := FirstIndex(BookRecs(books), IsbnIs(isbn)); f.Some? && f.value < |books| && books[f.value] == book
      requires var f := FirstIndex(TxnRecs(transactions), ActiveLoanFor(memberId, isbn));
        f.Some? && f.value < |transactions| && transactions[f.value] == loan
      modifies member, book, loan
      ensures Valid()
      ensures (State(), outcome) == Return(old(State()), memberId, isbn, today)
    {
      ghost var s := State();
      ghost var mi := FirstIndex(s.members, MemberIdIs(memberId)).value;
      ghost var bi := FirstIndex(s.books, IsbnIs(isbn)).value;
      ghost var ti := FirstIndex(s.transactions, ActiveLoanFor(memberId, isbn)).value;
      outcome := SettleReturn(loan, book, member, s, ti, bi, mi, today);
      ReturnCommits(s, memberId, isbn, today, mi, bi, ti);
      ReturnPreservesConsistent(s, memberId, isbn, today);
    }

    /** The commit of `returnBook`: the transaction is completed, the copy goes back, the
        member's count goes down, and a positive fine on the transaction is added to the
        member. */
    method SettleReturn(loan: Transaction, book: Book, member: Member, ghost s: LibState,
                        ghost ti: nat, ghost bi: nat, ghost mi: nat, today: int) returns (outcome: Outcome)
      requires s == State()
      requires ti < |transactions| && transactions[ti] == loan && Distinct(transactions)
      requires bi < |books| && books[bi] == book && Distinct(books)
      requires mi < |members| && members[mi] == member && Distinct(members)
      modifies loan, book, member
      ensures var t := s.transactions[ti].CompleteReturn(today);
        var m := s.members[mi].ReturnBook();
        State() == s.(books := s.books[bi := s.books[bi].ReturnCopy()],
                      members := s.members[mi := if t.fineAmount > 0 then m.AddFine(t.fineAmount) else m],
                      transactions := s.transactions[ti := t]) &&
        outcome == if t.fineAmount > 0 then ReturnedWithFine(t.fineAmount) else ReturnedOnTime
    {
      CloseLoan(loan, ti, today);
      RestockCopy(book, bi);
      outcome := DischargeMember(member, mi, loan.fineAmount);
    }

    /** `completeReturn()` on the loan at index ti. */
    method CloseLoan(loan: Transaction, ghost ti: nat, today: int)
      requires ti < |transactions| && transactions[ti] == loan && Distinct(transactions)
      modifies loan
      ensures TxnRecs(transactions) == old(TxnRecs(transactions))[ti := old(loan.Rec()).CompleteReturn(today)]
      ensures BookRecs(books) == old(BookRecs(books)) && MemberRecs(members) == old(MemberRecs(members))
    {
      loan.CompleteReturn(today);
      TransactionsFrame(ti);
    }

    /** `returnCopy()` on the book at index bi. */
    method RestockCopy(book: Book, ghost bi: nat)
      requires bi < |books| && books[bi] == book && Distinct(books)
      modifies book
      ensures BookRecs(books) == old(BookRecs(books))[bi := old(book.Rec()).ReturnCopy()]
      ensures MemberRecs(members) == old(MemberRecs(members)) && TxnRecs(transactions) == old(TxnRecs(transactions))
    {
      book.ReturnCopy();
      BooksFrame(bi);
    }

    /** `returnBook()` on the member at index mi, then `addFine` when the loan's fine is
        positive. */
    method DischargeMember(member: Member, ghost mi: nat, fine: int) returns (outcome: Outcome)
      requires mi < |members| && members[mi] == member && Distinct(members)
      modifies member
      ensures var m := old(member.Rec()).ReturnBook();
        MemberRecs(members) == old(MemberRecs(members))[mi := if fine > 0 then m.AddFine(fine) else m]
      ensures outcome == if fine > 0 then ReturnedWithFine(fine) else ReturnedOnTime
      ensures BookRecs(books) == old(BookRecs(books)) && TxnRecs(transactions) == old(TxnRecs(transactions))
    {
      member.ReturnBook();
      if fine > 0 {
        member.AddFine(fine);
        outcome := ReturnedWithFine(fine);
      } else {
        outcome := ReturnedOnTime;
      }
      MembersFrame(mi);
    }

    // ------------------------------------------------------------ catalogue and registration

    /** `addNewBook`. */
    method AddNewBook(isbn: string, title: string, author: string, categoryChoice: int,
                      publisher: string, year: Option<int>) returns (outcome: Outcome)
      requires Valid()
      modifies this
      ensures Valid()
      ensures (State(), outcome) == AddBook(old(State()), isbn, title, author, categoryChoice, publisher, year)
    {
      ghost var s := State();
      assert Consistent(s);
      var existing := FindBookByIsbn(isbn);
      if existing != null {
        return DuplicateIsbn;
      }
      if categoryChoice < 1 || categoryChoice > |BC.AllCategories| {
        return InvalidCategory;
      }
      CatalogueBook(isbn, title, author, BC.AllCategories[categoryChoice - 1], publisher, year);
      outcome := BookAdded;
      AddBookPreservesConsistent(s, isbn, title, author, categoryChoice, publisher, year);
    }

    /** The commit of `addNewBook`: a new book, its publisher unless blank, its year when
        one was given, appended to the catalogue. */
    method CatalogueBook(isbn: string, title: string, author: string, category: BC.BookCategory,
                         publisher: string, year: Option<int>)
      requires Distinct(books)
      modifies this
      ensures Distinct(books) && members == old(members) && transactions == old(transactions)
      ensures State() == old(State()).(books := old(State().books) +
                [NewBook(isbn, title, author, category).(publisher := if IsBlank(publisher) then None else Some(publisher),
                                                         yearPublished := year)])
    {
      var book := CreateBook(isbn, title, author, category, if IsBlank(publisher) then None else Some(publisher), year);
      AppendBook(book);
    }

    /** `registerNewMember`. */
    method RegisterNewMember(firstName: string, lastName: string, email: string, typeChoice: int,
                             phone: string, today: int, plusMonths: (int, int) -> int) returns (outcome: Outcome)
      requires Valid()
      modifies this
      ensures Valid()
      ensures (State(), outcome) == Register(old(State()), firstName, lastName, email, typeChoice, phone, today, plusMonths)
    {
      ghost var s := State();
      assert Consistent(s);
      var taken := EmailInUse(email);
      if taken {
        return DuplicateEmail;
      }
      if typeChoice < 1 || typeChoice > |MT.AllMemberTypes| {
        return InvalidMemberType;
      }
      var memberId := EnrolMember(firstName, lastName, email, MT.AllMemberTypes[typeChoice - 1], phone, today, plusMonths);
      outcome := Registered(memberId);
      RegisterPreservesConsistent(s, firstName, lastName, email, typeChoice, phone, today, plusMonths);
    }

    /** The commit of `registerNewMember`: the next MEM id is taken, the member created,
        given its phone number unless blank, and appended. */
    method EnrolMember(firstName: string, lastName: string, email: string, memberType: MT.MemberType,
                       phone: string, today: int, plusMonths: (int, int) -> int) returns (memberId: string)
      requires Distinct(members)
      modifies this
      ensures Distinct(members) && books == old(books) && transactions == old(transactions)
      ensures memberId == MemberIdFor(old(nextMemberId))
      ensures State() == old(State()).(
                members := old(State().members) +
                  [NewMember(memberId, firstName, lastName, email, memberType, today, plusMonths)
                     .(phoneNumber := if IsBlank(phone) then None else Some(phone))],
                nextMemberId := old(nextMemberId) + 1)
    {
      var phoneNumber := if IsBlank(phone) then None else Some(phone);
      memberId := MemberIdFor(nextMemberId);
      nextMemberId := nextMemberId + 1;
      var member := CreateMember(memberId, firstName, lastName, email, memberType, phoneNumber, today, plusMonths);
      AppendMember(member);
    }

    /** `deleteBook`. */
    method DeleteBook(isbn: string, confirmation: string) returns (outcome: Outcome)
      requires Valid()
      modifies this
      ensures Valid()
      ensures (State(), outcome) == Delete(old(State()), isbn, confirmation)
    {
      ghost var s := State();
      assert Consistent(s);
      var book := FindBookByIsbn(isbn);
      if book == null {
        return BookNotFound;
      }
      if !EqualsIgnoreCase("yes", confirmation) {
        return DeletionCancelled;
      }
      RemoveBook(book, FirstIndex(s.books, IsbnIs(isbn)).value);
      outcome := Deleted;
      DeletePreservesConsistent(s, isbn, confirmation);
    }

    /** `books.remove(book)`: the first element equal to the book, that is the first with
        its ISBN, is taken out of the catalogue. */
    method RemoveBook(book: Book, ghost bi: nat)
      requires bi < |books| && books[bi] == book && Distinct(books)
      requires forall j :: 0 <= j < bi ==> books[j].isbn != book.isbn
      modifies this
      ensures Distinct(books) && members == old(members) && transactions == old(transactions)
      ensures State() == old(State()).(books := old(State().books)[..bi] + old(State().books)[bi + 1..])
    {
      var i := 0;
      while !book.Equals(books[i])
        invariant 0 <= i <= bi
        invariant forall j :: 0 <= j < i ==> books[j].isbn != book.isbn
        decreases bi - i
      {
        i := i + 1;
      }
      RemoveBookAt(i);
    }

    /** Takes the i-th book out of the catalogue. */
    method RemoveBookAt(i: nat)
      requires i < |books| && Distinct(books)
      modifies this
      ensures books == old(books)[..i] + old(books)[i + 1..] && Distinct(books)
      ensures members == old(members) && transactions == old(transactions)
      ensures nextMemberId == old(nextMemberId) && nextTransactionId == old(nextTransactionId)
      ensures BookRecs(books) == old(BookRecs(books))[..i] + old(BookRecs(books))[i + 1..]
      ensures MemberRecs(members) == old(MemberRecs(members)) && TxnRecs(transactions) == old(TxnRecs(transactions))
    {
      books := books[..i] + books[i + 1..];
      BookRecsRemove(old(books), i);
      assert BookRecs(old(books)) == old(BookRecs(books));
      assert forall j :: 0 <= j < |books| ==> books[j] == old(books)[if j < i then j else j + 1];
    }

    /** `updateBookInfo`: 1 title, 2 author, 3 publisher, 0 cancel. */
    method UpdateBookInfo(isbn: string, choice: int, value: string) returns (outcome: Outcome)
      requires Valid()
      modifies books
      ensures Valid()
      ensures (State(), outcome) == UpdateBook(old(State()), isbn, choice, value)
    {
      ghost var s := State();
      var book := FindBookByIsbn(isbn);
      if book == null {
        return BookNotFound;
      }
      outcome := EditBook(book, s, FirstIndex(s.books, IsbnIs(isbn)).value, isbn, choice, value);
      UpdateBookPreservesConsistent(s, isbn, choice, value);
    }

    /** The menu of `updateBookInfo` applied to the book found at bi. */
    method EditBook(book: Book, ghost s: LibState, ghost bi: nat, isbn: string, choice: int, value: string)
      returns (outcome: Outcome)
      requires s == State() && FirstIndex(s.books, IsbnIs(isbn)) == Some(bi)
      requires bi < |books| && books[bi] == book && Distinct(books)
      modifies book
      ensures (State(), outcome) == UpdateBook(s, isbn, choice, value)
    {
      match choice
      case 1 =>
        book.SetTitle(value);
        outcome := Updated;
        BookEdited(bi);
      case 2 =>
        book.SetAuthor(value);
        outcome := Updated;
        BookEdited(bi);
      case 3 =>
        book.SetPublisher(value);
        outcome := Updated;
        BookEdited(bi);
      case 0 =>
        outcome := Cancelled;
      case _ =>
        outcome := InvalidChoice;
    }

    /** `updateMemberInfo`: 1 phone number, 2 address, 0 cancel. */
    method UpdateMemberInfo(memberId: string, choice: int, value: string) returns (outcome: Outcome)
      requires Valid()
      modifies members
      ensures Valid()
      ensures (State(), outcome) == UpdateMember(old(State()), memberId, choice, value)
    {
      ghost var s := State();
      var member := FindMemberById(memberId);
      if member == null {
        return MemberNotFound;
      }
      outcome := EditMember(member, s, FirstIndex(s.members, MemberIdIs(memberId)).value, memberId, choice, value);
      UpdateMemberPreservesConsistent(s, memberId, choice, value);
    }

    /** The menu of `updateMemberInfo` applied to the member found at mi. */
    method EditMember(member: Member, ghost s: LibState, ghost mi: nat, memberId: string, choice: int, value: string)
      returns (outcome: Outcome)
      requires s == State() && FirstIndex(s.members, MemberIdIs(memberId)) == Some(mi)
      requires mi < |members| && members[mi] == member && Distinct(members)
      modifies member
      ensures (State(), outcome) == UpdateMember(s, memberId, choice, value)
    {
      match choice
      case 1 =>
        member.SetPhoneNumber(value);
        outcome := Updated;
        MemberEdited(mi);
      case 2 =>
        member.SetAddress(value);
        outcome := Updated;
        MemberEdited(mi);
      case 0 =>
        outcome := Cancelled;
      case _ =>
        outcome := InvalidChoice;
    }

    // ------------------------------------------------------------ listings

    /** `searchBooks`: the books whose title, author or ISBN contains the lower-cased
        query, lower-cased, in catalogue order. */
    method SearchBooks(query: string) returns (results: seq<Book>)
      ensures BookRecs(results) == LibraryModel.SearchBooks(BookRecs(books), query)
      ensures forall b :: b in results ==> b in books
    {
      var searchTerm := Lower(query);
      results := [];
      var i := 0;
      while i < |books|
        invariant 0 <= i <= |books|
        invariant BookRecs(results) == Filter(BookRecs(books)[..i], BookMatches(searchTerm))
        invariant forall b :: b in results ==> b in books
      {
        var book := books[i];
        var hit := Contains(Lower(book.title), searchTerm) || Contains(Lower(book.author), searchTerm) ||
                   Contains(Lower(book.isbn), searchTerm);
        assert hit == BookMatches(searchTerm)(BookRecs(books)[i]);
        FilterPrefixStep(BookRecs(books), i, BookMatches(searchTerm));
        if hit {
          BookRecsAppend(results, book);
          results := results + [book];
        }
        i := i + 1;
      }
      assert BookRecs(books)[..i] == BookRecs(books);
    }

    /** `searchMembers`: the members whose first name, last name, ID or email contains the
        lower-cased query, lower-cased, in registration order. */
    method SearchMembers(query: string) returns (results: seq<Member>)
      ensures MemberRecs(results) == LibraryModel.SearchMembers(MemberRecs(members), query)
      ensures forall m :: m in results ==> m in members
    {
      var searchTerm := Lower(query);
      results := [];
      var i := 0;
      while i < |members|
        invariant 0 <= i <= |members|
        invariant MemberRecs(results) == Filter(MemberRecs(members)[..i], MemberMatches(searchTerm))
        invariant forall m :: m in results ==> m in members
      {
        var member := members[i];
        var hit := Contains(Lower(member.firstName), searchTerm) || Contains(Lower(member.lastName), searchTerm) ||
                   Contains(Lower(member.memberId), searchTerm) || Contains(Lower(member.email), searchTerm);
        assert hit == MemberMatches(searchTerm)(MemberRecs(members)[i]);
        FilterPrefixStep(MemberRecs(members), i, MemberMatches(searchTerm));
        if hit {
          MemberRecsAppend(results, member);
          results := results + [member];
        }
        i := i + 1;
      }
      assert MemberRecs(members)[..i] == MemberRecs(members);
    }

    /** `viewTransactionHistory`: nothing when there are no transactions at all; otherwise
        every transaction of the member, or every transaction for a blank ID, in order. */
    method ViewTransactionHistory(memberId: string) returns (results: seq<Transaction>)
      ensures TxnRecs(results) == History(TxnRecs(transactions), memberId)
      ensures forall t :: t in results ==> t in transactions
    {
      if |transactions| == 0 {
        return [];
      }
      var everyone := IsBlank(memberId);
      results := TransactionsHeldBy(memberId, everyone);
    }

    /** The transactions of the member, or all of them when `everyone` holds, in order. */
    method TransactionsHeldBy(memberId: string, everyone: bool) returns (results: seq<Transaction>)
      ensures TxnRecs(results) == Filter(TxnRecs(transactions), HeldBy(memberId, everyone))
      ensures forall t :: t in results ==> t in transactions
    {
      results := [];
      var i := 0;
      while i < |transactions|
        invariant 0 <= i <= |transactions|
        invariant TxnRecs(results) == Filter(TxnRecs(transactions)[..i], HeldBy(memberId, everyone))
        invariant forall t :: t in results ==> t in transactions
      {
        var transaction := transactions[i];
        var hit := everyone || transaction.memberId == memberId;
        assert hit == HeldBy(memberId, everyone)(TxnRecs(transactions)[i]);
        FilterPrefixStep(TxnRecs(transactions), i, HeldBy(memberId, everyone));
        if hit {
          TxnRecsAppend(results, transaction);
          results := results + [transaction];
        }
        i := i + 1;
      }
      assert TxnRecs(transactions)[..i] == TxnRecs(transactions);
    }

    /** `viewOverdueBooks`: the transactions overdue on `today`, in order. */
    method ViewOverdueBooks(today: int) returns (results: seq<Transaction>)
      ensures TxnRecs(results) == Overdue(TxnRecs(transactions), today)
      ensures forall t :: t in results ==> t in transactions
    {
      results := [];
      var i := 0;
      while i < |transactions|
        invariant 0 <= i <= |transactions|
        invariant TxnRecs(results) == Filter(TxnRecs(transactions)[..i], OverdueOn(today))
        invariant forall t :: t in results ==> t in transactions
      {
        var transaction := transactions[i];
        var hit := transaction.IsOverdue(today);
        assert hit == OverdueOn(today)(TxnRecs(transactions)[i]);
        FilterPrefixStep(TxnRecs(transactions), i, OverdueOn(today));
        if hit {
          TxnRecsAppend(results, transaction);
          results := results + [transaction];
        }
        i := i + 1;
      }
      assert TxnRecs(transactions)[..i] == TxnRecs(transactions);
    }
  }
}
