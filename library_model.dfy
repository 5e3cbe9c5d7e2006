/** The application's three lists and two counters as one value, and every menu
    operation as a function from the old value to the new one with what it reports
    (LibraryManagementApplication.java). Console input arrives as parameters, already
    trimmed as `readStringInput` returns it; "today" is a day number. */
module LibraryModel {
  import opened Wrappers
  import opened Lists
  import opened Text
  import opened Books
  import opened Members
  import opened Transactions
  import BC = BookCategories
  import MT = MemberTypes
  import TT = TransactionTypes
  import TS = TransactionStatuses

  datatype LibState = LibState(
    books: seq<BookRec>,
    members: seq<MemberRec>,
    transactions: seq<TxnRec>,
    nextMemberId: nat,
    nextTransactionId: nat)

  /** What an operation reports on the console. */
  datatype Outcome =
    | BookAdded
    | Registered(memberId: string)
    | BorrowedAs(transactionId: string)
    | ReturnedOnTime
    | ReturnedWithFine(fine: int)
    | Deleted
    | Updated
    | Cancelled
    | InvalidChoice
    | DuplicateIsbn
    | InvalidCategory
    | DuplicateEmail
    | InvalidMemberType
    | MemberNotFound
    | MemberCannotBorrow
    | BookNotFound
    | BookNotAvailable
    | NoActiveLoan
    | DeletionCancelled

  // ---------------------------------------------------------------- identifiers

  /** `"MEM" + String.format("%06d", n)`. */
  function MemberIdFor(n: nat): string
  {
    "MEM" + ZeroPad6(n)
  }

  /** `"TXN" + String.format("%06d", n)`. */
  function TransactionIdFor(n: nat): string
  {
    "TXN" + ZeroPad6(n)
  }

  /** Different counter values give different member IDs. */
  lemma MemberIdInjective(a: nat, b: nat)
    ensures MemberIdFor(a) == MemberIdFor(b) <==> a == b
  {
    if MemberIdFor(a) == MemberIdFor(b) {
      PrefixedZeroPad6Injective("MEM", a, b);
    }
  }

  /** Different counter values give different transaction IDs. */
  lemma TransactionIdInjective(a: nat, b: nat)
    ensures TransactionIdFor(a) == TransactionIdFor(b) <==> a == b
  {
    if TransactionIdFor(a) == TransactionIdFor(b) {
      PrefixedZeroPad6Injective("TXN", a, b);
    }
  }

  /** The counter value can be read back from a member ID, which has nine characters
      while the counter stays below one million. */
  lemma MemberIdRoundTrip(n: nat)
    ensures MemberIdFor(n)[..3] == "MEM" && ParseDecimal(MemberIdFor(n)[3..]) == n
    ensures n < 1000000 ==> |MemberIdFor(n)| == 9
  {
    assert MemberIdFor(n)[3..] == ZeroPad6(n);
    ZeroPad6RoundTrip(n);
    if n < 1000000 {
      ZeroPad6Length(n);
    }
  }

  // ---------------------------------------------------------------- scan predicates

  /** `book.getIsbn().equals(isbn)`. */
  function IsbnIs(isbn: string): BookRec -> bool
  {
    (b: BookRec) => b.isbn == isbn
  }

  /** `member.getMemberId().equals(memberId)`. */
  function MemberIdIs(memberId: string): MemberRec -> bool
  {
    (m: MemberRec) => m.memberId == memberId
  }

  /** `existingMember.getEmail().equalsIgnoreCase(email)`. */
  function EmailMatches(email: string): MemberRec -> bool
  {
    (m: MemberRec) => EqualsIgnoreCase(m.email, email)
  }

  /** The return scan's test: same member, same book, a BORROW that is still ACTIVE. */
  function ActiveLoanFor(memberId: string, isbn: string): TxnRec -> bool
  {
    (t: TxnRec) => t.memberId == memberId && t.bookIsbn == isbn && t.txnType == TT.Borrow && t.status == TS.Active
  }

  /** An ACTIVE BORROW held by the given member, whatever the book. */
  function ActiveLoanOf(memberId: string): TxnRec -> bool
  {
    (t: TxnRec) => t.memberId == memberId && t.txnType == TT.Borrow && t.status == TS.Active
  }

  /** The book search test, for an already lower-cased search term. */
  function BookMatches(term: string): BookRec -> bool
  {
    (b: BookRec) => Contains(Lower(b.title), term) || Contains(Lower(b.author), term) || Contains(Lower(b.isbn), term)
  }

  /** The member search test, for an already lower-cased search term. */
  function MemberMatches(term: string): MemberRec -> bool
  {
    (m: MemberRec) =>
      Contains(Lower(m.firstName), term) || Contains(Lower(m.lastName), term) ||
      Contains(Lower(m.memberId), term) || Contains(Lower(m.email), term)
  }

  /** The history test: a blank member ID selects everything. */
  function InHistory(memberId: string): TxnRec -> bool
  {
    HeldBy(memberId, IsBlank(memberId))
  }

  /** A transaction of the given member, or any transaction when `everyone` holds. */
  function HeldBy(memberId: string, everyone: bool): TxnRec -> bool
  {
    (t: TxnRec) => everyone || t.memberId == memberId
  }

  /** The overdue listing's test. */
  function OverdueOn(today: int): TxnRec -> bool
  {
    (t: TxnRec) => t.IsOverdue(today)
  }

  // ---------------------------------------------------------------- queries

  /** `searchBooks`. */
  function SearchBooks(books: seq<BookRec>, query: string): seq<BookRec>
  {
    Filter(books, BookMatches(Lower(query)))
  }

  /** `searchMembers` (no member's email is missing here, so the null test always passes). */
  function SearchMembers(members: seq<MemberRec>, query: string): seq<MemberRec>
  {
    Filter(members, MemberMatches(Lower(query)))
  }

  /** `viewTransactionHistory`. */
  function History(transactions: seq<TxnRec>, memberId: string): seq<TxnRec>
  {
    Filter(transactions, InHistory(memberId))
  }

  /** `viewOverdueBooks`. */
  function Overdue(transactions: seq<TxnRec>, today: int): seq<TxnRec>
  {
    Filter(transactions, OverdueOn(today))
  }

  // ---------------------------------------------------------------- state changes

  /** `borrowBook`: member found, member may borrow, book found, book available; then a
      new ACTIVE BORROW transaction with the next TXN id, one copy off the book, one book
      on the member. */
  function Borrow(s: LibState, memberId: string, isbn: string, today: int): (LibState, Outcome)
  {
    match FirstIndex(s.members, MemberIdIs(memberId))
    case None => (s, MemberNotFound)
    case Some(mi) =>
      var m := s.members[mi];
      if !m.CanBorrowBooks(today) then (s, MemberCannotBorrow)
      else
        match FirstIndex(s.books, IsbnIs(isbn))
        case None => (s, BookNotFound)
        case Some(bi) =>
          var b := s.books[bi];
          if !b.IsAvailable() then (s, BookNotAvailable)
          else
            var id := TransactionIdFor(s.nextTransactionId);
            var t := NewTransaction(id, memberId, isbn, TT.Borrow, today);
            // `member.borrowBook()` cannot throw here: `canBorrowBooks` was just checked.
            var m' := m.BorrowBook(today).value;
            (s.(books := s.books[bi := b.BorrowCopy()],
                members := s.members[mi := m'],
                transactions := s.transactions + [t],
                nextTransactionId := s.nextTransactionId + 1),
             BorrowedAs(id))
  }

  /** `returnBook`: member found, book found, and the first ACTIVE BORROW for the two;
      that transaction is completed, the copy goes back, the member's count goes down,
      and a positive fine on the transaction is added to the member. */
  function Return(s: LibState, memberId: string, isbn: string, today: int): (LibState, Outcome)
  {
    match FirstIndex(s.members, MemberIdIs(memberId))
    case None => (s, MemberNotFound)
    case Some(mi) =>
      match FirstIndex(s.books, IsbnIs(isbn))
      case None => (s, BookNotFound)
      case Some(bi) =>
        match FirstIndex(s.transactions, ActiveLoanFor(memberId, isbn))
        case None => (s, NoActiveLoan)
        case Some(ti) =>
          var t := s.transactions[ti].CompleteReturn(today);
          var m := s.members[mi].ReturnBook();
          var s' := s.(books := s.books[bi := s.books[bi].ReturnCopy()],
                       transactions := s.transactions[ti := t]);
          if t.fineAmount > 0 then
            (s'.(members := s.members[mi := m.AddFine(t.fineAmount)]), ReturnedWithFine(t.fineAmount))
          else
            (s'.(members := s.members[mi := m]), ReturnedOnTime)
  }

  /** What `Borrow` computes once member and book are found at mi and bi and both checks pass. */
  lemma BorrowCommits(s: LibState, memberId: string, isbn: string, today: int, mi: nat, bi: nat)
    requires FirstIndex(s.members, MemberIdIs(memberId)) == Some(mi) && s.members[mi].CanBorrowBooks(today)
    requires FirstIndex(s.books, IsbnIs(isbn)) == Some(bi) && s.books[bi].IsAvailable()
    ensures var id := TransactionIdFor(s.nextTransactionId);
      Borrow(s, memberId, isbn, today) ==
        (s.(books := s.books[bi := s.books[bi].BorrowCopy()],
            members := s.members[mi := s.members[mi].BorrowBook(today).value],
            transactions := s.transactions + [NewTransaction(id, memberId, isbn, TT.Borrow, today)],
            nextTransactionId := s.nextTransactionId + 1),
         BorrowedAs(id))
  {
  }

  /** What `Return` computes once member, book and loan are found at mi, bi and ti. */
  lemma ReturnCommits(s: LibState, memberId: string, isbn: string, today: int, mi: nat, bi: nat, ti: nat)
    requires FirstIndex(s.members, MemberIdIs(memberId)) == Some(mi)
    requires FirstIndex(s.books, IsbnIs(isbn)) == Some(bi)
    requires FirstIndex(s.transactions, ActiveLoanFor(memberId, isbn)) == Some(ti)
    ensures var t := s.transactions[ti].CompleteReturn(today);
      var m := s.members[mi].ReturnBook();
      Return(s, memberId, isbn, today) ==
        (s.(books := s.books[bi := s.books[bi].ReturnCopy()],
            members := s.members[mi := if t.fineAmount > 0 then m.AddFine(t.fineAmount) else m],
            transactions := s.transactions[ti := t]),
         if t.fineAmount > 0 then ReturnedWithFine(t.fineAmount) else ReturnedOnTime)
  {
  }

  /** `addNewBook`: reject a duplicate ISBN, then an out-of-range category choice; the
      publisher is set unless blank and the year when one was given. */
  function AddBook(s: LibState, isbn: string, title: string, author: string, categoryChoice: int,
                   publisher: string, year: Option<int>): (LibState, Outcome)
  {
    if FirstIndex(s.books, IsbnIs(isbn)).Some? then (s, DuplicateIsbn)
    else
      match BC.FromMenuChoice(categoryChoice)
      case None => (s, InvalidCategory)
      case Some(category) =>
        var b := NewBook(isbn, title, author, category);
        var b' := if IsBlank(publisher) then b else b.(publisher := Some(publisher));
        var b'' := if year.Some? then b'.(yearPublished := year) else b';
        (s.(books := s.books + [b'']), BookAdded)
  }

  /** `registerNewMember`: reject an email already in use (ignoring case), then an
      out-of-range type choice; only then is the next MEM id taken. The phone number is
      set unless blank. */
  function Register(s: LibState, firstName: string, lastName: string, email: string, typeChoice: int,
                    phone: string, today: int, plusMonths: (int, int) -> int): (LibState, Outcome)
  {
    if FirstIndex(s.members, EmailMatches(email)).Some? then (s, DuplicateEmail)
    else
      match MT.FromMenuChoice(typeChoice)
      case None => (s, InvalidMemberType)
      case Some(memberType) =>
        var id := MemberIdFor(s.nextMemberId);
        var m := NewMember(id, firstName, lastName, email, memberType, today, plusMonths);
        var m' := if IsBlank(phone) then m else m.(phoneNumber := Some(phone));
        (s.(members := s.members + [m'], nextMemberId := s.nextMemberId + 1), Registered(id))
  }

  /** `deleteBook`: the first book with the ISBN is removed when the answer is "yes" in
      any case. Loans of the book are not looked at. */
  function Delete(s: LibState, isbn: string, confirmation: string): (LibState, Outcome)
  {
    match FirstIndex(s.books, IsbnIs(isbn))
    case None => (s, BookNotFound)
    case Some(i) =>
      if EqualsIgnoreCase("yes", confirmation) then (s.(books := s.books[..i] + s.books[i + 1..]), Deleted)
      else (s, DeletionCancelled)
  }

  /** `updateBookInfo`: 1 title, 2 author, 3 publisher, 0 cancel, anything else rejected. */
  function UpdateBook(s: LibState, isbn: string, choice: int, value: string): (LibState, Outcome)
  {
    match FirstIndex(s.books, IsbnIs(isbn))
    case None => (s, BookNotFound)
    case Some(i) =>
      var b := s.books[i];
      if choice == 1 then (s.(books := s.books[i := b.(title := value)]), Updated)
      else if choice == 2 then (s.(books := s.books[i := b.(author := value)]), Updated)
      else if choice == 3 then (s.(books := s.books[i := b.(publisher := Some(value))]), Updated)
      else if choice == 0 then (s, Cancelled)
      else (s, InvalidChoice)
  }

  /** `updateMemberInfo`: 1 phone number, 2 address, 0 cancel, anything else rejected. */
  function UpdateMember(s: LibState, memberId: string, choice: int, value: string): (LibState, Outcome)
  {
    match FirstIndex(s.members, MemberIdIs(memberId))
    case None => (s, MemberNotFound)
    case Some(i) =>
      var m := s.members[i];
      if choice == 1 then (s.(members := s.members[i := m.(phoneNumber := Some(value))]), Updated)
      else if choice == 2 then (s.(members := s.members[i := m.(address := Some(value))]), Updated)
      else if choice == 0 then (s, Cancelled)
      else (s, InvalidChoice)
  }

  /** `initializeWithSampleData`: two books with publisher and year, two members with a
      phone number, and the member counter left at 3. */
  function SampleState(today: int, plusMonths: (int, int) -> int): LibState
  {
    var book1 := NewBook("978-0134685991", "Effective Java", "Joshua Bloch", BC.ComputerProgramming)
                   .(publisher := Some("Addison-Wesley"), yearPublished := Some(2017));
    var book2 := NewBook("978-0321356680", "Clean Code", "Robert Martin", BC.ComputerProgramming)
                   .(publisher := Some("Prentice Hall"), yearPublished := Some(2008));
    var member1 := NewMember(MemberIdFor(1), "John", "Doe", "john.doe@email.com", MT.Student, today, plusMonths)
                   .(phoneNumber := Some("+1-555-0101"));
    var member2 := NewMember(MemberIdFor(2), "Jane", "Smith", "jane.smith@email.com", MT.Faculty, today, plusMonths)
                   .(phoneNumber := Some("+1-555-0102"));
    LibState([book1, book2], [member1, member2], [], 3, 1)
  }

  // ---------------------------------------------------------------- display helper

  /** The exception `substring` throws for a negative end index. */
  datatype TruncateError = IndexOutOfBounds

  /** `truncate`: "" for a missing string, the string itself when it fits, and otherwise
      its first `length - 3` characters followed by "...". A `length` below 3 applied to a
      longer string makes `substring` throw. */
  function Truncate(str: Option<string>, length: int): (r: Result<string, TruncateError>)
    ensures str.None? ==> r == Success("")
    ensures str.Some? && |str.value| <= length ==> r == Success(str.value)
    ensures str.Some? && |str.value| > length >= 3 ==>
              r.Success? && |r.value| == length && r.value == str.value[..length - 3] + "..."
    ensures r.Failure? <==> str.Some? && |str.value| > length && length < 3
    ensures r.Success? ==> |r.value| <= if str.Some? then |str.value| else 0
    ensures r.Success? && length >= 0 ==> |r.value| <= length
  {
    match str
    case None => Success("")
    case Some(s) =>
      if |s| <= length then Success(s)
      else if length - 3 < 0 then Failure(IndexOutOfBounds)
      else Success(s[..length - 3] + "...")
  }
}
