# Library lending rules, modelled in Dafny

This project models the lending core of the console Library Management System:
- books, with their copy counts and status;
- members, with their borrowing eligibility, borrowed-book count and fines;
- the borrow/return transactions that link the two;
- the application object that keeps the three lists and the `MEM`/`TXN` ID counters.

The model has two layers.

- **Value layer.** `BookRec`, `MemberRec` and `TxnRec` describe the entities as values. `LibState` holds the three lists and the two counters. Each menu operation is a function from the old `LibState` to the new one, paired with what it reports (`Outcome`).
  - The functions are `LibraryModel.Borrow`, `Return`, `AddBook`, `Register`, `Delete`, `UpdateBook` and `UpdateMember`.
  - The lemmas in `LibraryProperties` state what those operations do.
  - `LibraryInvariant.Consistent` is preserved by every operation and established by the sample data. It says:
    - ISBNs are unique and emails are unique ignoring case;
    - the i-th member and transaction carry the i-th ID, and each counter sits one above its list's length;
    - every member's borrowed count equals its number of ACTIVE loans;
    - nobody owes a fine;
    - every transaction is a well-formed BORROW.
- **Object layer.** `Book`, `Member`, `Transaction` and `Library` are classes with the Java fields, and their methods update those fields in place.
  - Every method is proved to change the object exactly as the value layer says, through `Rec()` or `State()`.
  - `Library`'s lists are sequences of object references, which the operations reassign or whose elements they change. The scans over them are `while` loops with invariants.
  - `Library.Valid()` is the class invariant. No object appears twice in a list, and `Consistent` holds of `State()`. The constructor establishes it and every operation keeps it.

Conventions:
- **Dates.** A date is an integer day number.
  - "Today" (`LocalDate.now()`) is a `today` parameter.
  - `LocalDate.plusMonths` is a function parameter `plusMonths`.
  - `plusWeeks(2)` is 14 days.
- **Money.** Money is integer cents: 0.50 per day is 50, and the 50.00 borrowing threshold is 5000.
- **Console input.** What the application reads from the console arrives as parameters, already trimmed as `readStringInput` returns it.
  - An integer menu choice is an `int`.
  - The optional publication year is an `Option<int>`.
- **Null and exceptions.** Java's `null` is `None`, and a thrown exception is a `Failure` value.

The fine is modelled as the code computes it. `SimpleTransaction.completeReturn` sets the status to COMPLETED before it calls `calculateFine`. `calculateFine` only acts on an ACTIVE loan, so the fine of a returned loan stays 0 and `returnBook` never adds a fine to a member.
- The intended rule is a fine of 0.50 per overdue day, charged at return. The comment in `calculateFine` and the fine branch of `returnBook` show that intent. The model follows the code instead.
- `Transactions.TenDaysLateReturnKeepsNoFine` shows the gap on a loan returned ten days late. `calculateFine` on the still-active loan gives 500 cents, and `completeReturn` leaves 0.
- `LibraryProperties.NoFineAtReturn` proves that no return in a consistent state reports or charges a fine.

## Model

Source paths are relative to the repository root.

| member | source | states |
|---|---|---|
| Books.BookRec.IsAvailable | src/main/java/com/libraryms/model/SimpleBook.java:110-112 | a book is available exactly when its status is AVAILABLE and a copy is on the shelf (see `AvailableIffCopyLeft`) |
| Books.NewBook | src/main/java/com/libraryms/model/SimpleBook.java:26-40 | a new book keeps the given ISBN, title, author and category, has one copy owned and one on the shelf, status AVAILABLE, no publisher and year, and is available |
| Books.BookRec.BorrowCopy | src/main/java/com/libraryms/model/SimpleBook.java:114-122 | on an available book exactly one copy goes, status becomes BORROWED iff none is left and is unchanged otherwise; an unavailable book is unchanged; only count and status can change; `0 <= available <= total` and the status/count agreement are preserved |
| Books.BookRec.ReturnCopy | src/main/java/com/libraryms/model/SimpleBook.java:124-130 | with a copy out, one copy comes back and the status is AVAILABLE; otherwise nothing changes; bounds and status agreement are preserved |
| Books.BorrowThenReturnRestores | src/main/java/com/libraryms/model/SimpleBook.java:114-130 | on an available book within bounds, borrowing a copy and returning it gives back exactly the same book |
| Books.AvailableIffCopyLeft | src/main/java/com/libraryms/model/SimpleBook.java:110-112 | when the status follows the copy count, `isAvailable` holds exactly when a copy is on the shelf |
| Books.Book.constructor | src/main/java/com/libraryms/model/SimpleBook.java:34-40 | the new object's fields are those of `NewBook` |
| Books.Book.BorrowCopy | src/main/java/com/libraryms/model/SimpleBook.java:114-122 | the object's fields change exactly as `BookRec.BorrowCopy` says |
| Books.Book.ReturnCopy | src/main/java/com/libraryms/model/SimpleBook.java:124-130 | the object's fields change exactly as `BookRec.ReturnCopy` says |
| Books.Book.SetTitle | src/main/java/com/libraryms/model/SimpleBook.java:50-53 | only the title changes, to the given one |
| Books.Book.SetAuthor | src/main/java/com/libraryms/model/SimpleBook.java:56-59 | only the author changes, to the given one |
| Books.Book.SetPublisher | src/main/java/com/libraryms/model/SimpleBook.java:68-71 | only the publisher changes, to the given one |
| Books.Book.SetYearPublished | src/main/java/com/libraryms/model/SimpleBook.java:74-77 | only the publication year changes, to the given one |
| Books.EqualsOnlyByIsbn | src/main/java/com/libraryms/model/SimpleBook.java:134-139 | two books are equal exactly when their ISBNs agree; equality is symmetric and reflexive |
| Members.MemberRec.IsActive | src/main/java/com/libraryms/model/SimpleMember.java:76-78 | a member is active exactly when its status is ACTIVE and its membership ends strictly after today |
| Members.MemberRec.CanBorrowBooks | src/main/java/com/libraryms/model/SimpleMember.java:80-82 | a member may borrow exactly when active, below its type's book limit and owing less than 50.00 (5000 cents); see `FinesNeverBlockBorrowing` and `BorrowChecksInOrder` |
| Members.MemberRec.FullName | src/main/java/com/libraryms/model/SimpleMember.java:72-74 | the full name is the first name, then one space, then the last name, and nothing else |
| Members.MemberRec.AddFine | src/main/java/com/libraryms/model/SimpleMember.java:84-86 | the fines grow by exactly the amount and nothing else changes; a non-negative amount on non-negative fines never lowers them |
| Members.MemberRec.PayFine | src/main/java/com/libraryms/model/SimpleMember.java:88-90 | fines never go below 0; they drop by the amount, or to 0 exactly when the amount covers them; nothing else changes |
| Members.MemberRec.BorrowBook | src/main/java/com/libraryms/model/SimpleMember.java:92-98 | succeeds exactly when `canBorrowBooks` holds and then raises the count by one and changes nothing else; otherwise it is the "cannot borrow" exception; a success keeps the count within the type's limit |
| Members.MemberRec.ReturnBook | src/main/java/com/libraryms/model/SimpleMember.java:100-104 | a positive count drops by one, a zero count stays; nothing else changes; the count stays within `0..limit` |
| Members.MemberRec.RenewMembership | src/main/java/com/libraryms/model/SimpleMember.java:106-111 | the end date moves by the given months; EXPIRED becomes ACTIVE and every other status stays; nothing else changes |
| Members.NewMember | src/main/java/com/libraryms/model/SimpleMember.java:20-31 | a new member keeps the given identity, email and type, is ACTIVE from today until today plus the type's duration, owes nothing, holds no books and is within its limit |
| Members.NewMemberCanBorrow | src/main/java/com/libraryms/model/SimpleMember.java:20-31 | a member just built by `NewMember` (ACTIVE, no fines, no books) may borrow, whenever the calendar puts today plus the type's duration after today |
| Members.RenewLeavesInactive | src/main/java/com/libraryms/model/SimpleMember.java:106-111 | an INACTIVE member counts as renewable by status, yet renewal leaves it INACTIVE |
| Members.Member.constructor | src/main/java/com/libraryms/model/SimpleMember.java:20-31 | the new object's fields are those of `NewMember` |
| Members.Member.AddFine | src/main/java/com/libraryms/model/SimpleMember.java:84-86 | the object's fields change exactly as `MemberRec.AddFine` says |
| Members.Member.PayFine | src/main/java/com/libraryms/model/SimpleMember.java:88-90 | the object's fields change exactly as `MemberRec.PayFine` says |
| Members.Member.BorrowBook | src/main/java/com/libraryms/model/SimpleMember.java:92-98 | when `MemberRec.BorrowBook` succeeds the object takes its result and nothing is thrown; otherwise the exception is returned and the object is unchanged |
| Members.Member.ReturnBook | src/main/java/com/libraryms/model/SimpleMember.java:100-104 | the object's fields change exactly as `MemberRec.ReturnBook` says |
| Members.Member.RenewMembership | src/main/java/com/libraryms/model/SimpleMember.java:106-111 | the object's fields change exactly as `MemberRec.RenewMembership` says |
| Members.Member.SetPhoneNumber | src/main/java/com/libraryms/model/SimpleMember.java:46 | only the phone number changes, to the given one |
| Members.Member.SetAddress | src/main/java/com/libraryms/model/SimpleMember.java:49 | only the address changes, to the given one |
| Transactions.TxnRec.IsOverdue | src/main/java/com/libraryms/model/SimpleTransaction.java:68-73 | a transaction is overdue exactly when it is an ACTIVE BORROW with a due date strictly before today (see `OverdueExact`, `CompletedNeverOverdue`) |
| Transactions.NewTransaction | src/main/java/com/libraryms/model/SimpleTransaction.java:22-34 | a new transaction keeps its id, member, book and type, is ACTIVE with fine 0 and no return date, is due 14 days from today exactly when it is a BORROW, and is not overdue today |
| Transactions.TxnRec.DaysOverdue | src/main/java/com/libraryms/model/SimpleTransaction.java:75-78 | never negative, positive exactly when the loan is overdue, and then today minus the due date |
| Transactions.TxnRec.CalculateFine | src/main/java/com/libraryms/model/SimpleTransaction.java:80-85 | an overdue loan's fine becomes 50 cents times the days overdue, which is positive; otherwise the transaction is unchanged; only the fine can change |
| Transactions.TxnRec.CompleteReturn | src/main/java/com/libraryms/model/SimpleTransaction.java:87-91 | the return date is today and the status COMPLETED; the fine keeps its old value; nothing else changes; afterwards the loan is not overdue and has 0 days overdue |
| Transactions.CompletedNeverOverdue | src/main/java/com/libraryms/model/SimpleTransaction.java:68-91 | after `completeReturn` the transaction is not overdue and has 0 days overdue on any later day |
| Transactions.TenDaysLateReturnKeepsNoFine | src/main/java/com/libraryms/model/SimpleTransaction.java:80-91 | for a loan ten days past due, `calculateFine` on the active loan gives 500 cents, while `completeReturn` leaves the fine at 0 |
| Transactions.Transaction.constructor | src/main/java/com/libraryms/model/SimpleTransaction.java:22-34 | the new object's fields are those of `NewTransaction` |
| Transactions.Transaction.CalculateFine | src/main/java/com/libraryms/model/SimpleTransaction.java:80-85 | the object's fields change exactly as `TxnRec.CalculateFine` says |
| Transactions.Transaction.CompleteReturn | src/main/java/com/libraryms/model/SimpleTransaction.java:87-91 | the object's fields change exactly as `TxnRec.CompleteReturn` says |
| BookStatuses.BookStatus.DisplayName | src/main/java/com/libraryms/model/BookStatus.java:8-35 | each status's display name, which `toString` also returns (see `DisplayNameInjective`) |
| BookStatuses.BookStatus.CanBeBorrowed | src/main/java/com/libraryms/model/BookStatus.java:40-42 | only AVAILABLE can be borrowed |
| BookStatuses.BookStatus.IsActive | src/main/java/com/libraryms/model/BookStatus.java:47-49 | every status but LOST and WITHDRAWN is active |
| BookStatuses.CanBeBorrowedIsActive | src/main/java/com/libraryms/model/BookStatus.java:40-49 | a status that `canBeBorrowed` (only AVAILABLE) is `isActive` (all but LOST and WITHDRAWN) |
| BookStatuses.DisplayNameInjective | src/main/java/com/libraryms/model/BookStatus.java:8-14 | two statuses have the same display name (and `toString`) exactly when they are the same status |
| MemberStatuses.MemberStatus.DisplayName | src/main/java/com/libraryms/model/MemberStatus.java:8-33 | each status's display name, which `toString` also returns (see `DisplayNameInjective`) |
| MemberStatuses.MemberStatus.CanBorrowBooks | src/main/java/com/libraryms/model/MemberStatus.java:38-40 | only ACTIVE may borrow |
| MemberStatuses.MemberStatus.CanRenewMembership | src/main/java/com/libraryms/model/MemberStatus.java:45-47 | EXPIRED and INACTIVE may renew |
| MemberStatuses.BorrowAndRenewExclusive | src/main/java/com/libraryms/model/MemberStatus.java:38-47 | no status both `canBorrowBooks` (ACTIVE) and `canRenewMembership` (EXPIRED, INACTIVE) |
| MemberStatuses.DisplayNameInjective | src/main/java/com/libraryms/model/MemberStatus.java:8-12 | two statuses have the same display name exactly when they are the same status |
| TransactionStatuses.TransactionStatus.DisplayName | src/main/java/com/libraryms/model/TransactionStatus.java:7-34 | each status's display name, which `toString` also returns (see `DisplayNameInjective`) |
| TransactionStatuses.TransactionStatus.IsActiveBorrowing | src/main/java/com/libraryms/model/TransactionStatus.java:39-41 | ACTIVE and OVERDUE are active borrowings |
| TransactionStatuses.TransactionStatus.IsCompleted | src/main/java/com/libraryms/model/TransactionStatus.java:46-48 | RETURNED, COMPLETED and CANCELLED are completed |
| TransactionStatuses.ActiveAndCompletedExclusive | src/main/java/com/libraryms/model/TransactionStatus.java:39-48 | no status is both `isActiveBorrowing` (ACTIVE, OVERDUE) and `isCompleted` (RETURNED, COMPLETED, CANCELLED) |
| TransactionStatuses.NeitherExactlyPendingOrFailed | src/main/java/com/libraryms/model/TransactionStatus.java:7-48 | a status satisfies neither predicate exactly when it is PENDING or FAILED |
| TransactionStatuses.DisplayNameInjective | src/main/java/com/libraryms/model/TransactionStatus.java:7-13 | two statuses have the same display name exactly when they are the same status |
| TransactionTypes.TransactionType.DisplayName | src/main/java/com/libraryms/model/TransactionType.java:4-32 | each type's display name, which `toString` also returns (see `DisplayNameInjective`) |
| TransactionTypes.TransactionType.AffectsAvailability | src/main/java/com/libraryms/model/TransactionType.java:34-36 | BORROW, RETURN and LOST_BOOK affect availability |
| TransactionTypes.TransactionType.RequiresAvailableBook | src/main/java/com/libraryms/model/TransactionType.java:38-40 | only BORROW and RESERVE require an available book |
| TransactionTypes.OnlyBorrowDoesBoth | src/main/java/com/libraryms/model/TransactionType.java:34-40 | a type both `affectsAvailability` and `requiresAvailableBook` exactly when it is BORROW |
| TransactionTypes.DisplayNameInjective | src/main/java/com/libraryms/model/TransactionType.java:4-11 | two types have the same display name exactly when they are the same type |
| MemberTypes.MemberType.DisplayName | src/main/java/com/libraryms/model/MemberType.java:4-42 | each type's display name, which `toString` also returns (see `DisplayNamesDistinctIgnoringCase`, `FromDisplayNameRoundTrip`) |
| MemberTypes.MemberType.MaxBooksAllowed | src/main/java/com/libraryms/model/MemberType.java:4-33 | the book limit of each type: 5, 10, 7, 3, 15 and 5 (see `LimitsPositive`) |
| MemberTypes.MemberType.MembershipDurationMonths | src/main/java/com/libraryms/model/MemberType.java:4-37 | the membership length of each type in months: 12, 24, 12, 6, 12 and 12 (see `LimitsPositive`) |
| MemberTypes.LimitsPositive | src/main/java/com/libraryms/model/MemberType.java:4-9 | every member type allows at least one book and lasts at least one month |
| MemberTypes.FromDisplayName | src/main/java/com/libraryms/model/MemberType.java:44-51 | when some type's display name equals the input ignoring case, the result is such a type; when none does, the result is PUBLIC |
| MemberTypes.DisplayNamesDistinctIgnoringCase | src/main/java/com/libraryms/model/MemberType.java:4-9 | two types whose display names are equal ignoring case are the same type |
| MemberTypes.FromDisplayNameRoundTrip | src/main/java/com/libraryms/model/MemberType.java:44-51 | looking a type up by its own display name gives that type back |
| MemberTypes.FromMenuChoice | src/main/java/com/libraryms/LibraryManagementApplication.java:400-413 | a type is picked exactly for a choice in `1..6`, and it is the choice-th of `values()` |
| BookCategories.BookCategory.DisplayName | src/main/java/com/libraryms/model/BookCategory.java:8-42 | each category's display name, which `toString` also returns (see `DisplayNamesDistinctIgnoringCase`, `FromDisplayNameRoundTrip`) |
| BookCategories.AllCategoriesComplete | src/main/java/com/libraryms/model/BookCategory.java:8-21 | `values()` lists every category |
| BookCategories.FromDisplayName | src/main/java/com/libraryms/model/BookCategory.java:47-54 | when some category's display name equals the input ignoring case, the result is such a category; when none does, the result is OTHER |
| BookCategories.DisplayNamesDistinctIgnoringCase | src/main/java/com/libraryms/model/BookCategory.java:8-21 | two categories whose display names are equal ignoring case are the same category |
| BookCategories.FromDisplayNameRoundTrip | src/main/java/com/libraryms/model/BookCategory.java:47-54 | looking a category up by its own display name gives that category back |
| BookCategories.FromMenuChoice | src/main/java/com/libraryms/LibraryManagementApplication.java:176-187 | a category is picked exactly for a choice in `1..14`, and it is the choice-th of `values()` |
| Text.TrimStart | src/main/java/com/libraryms/LibraryManagementApplication.java:766-769 | the result is a suffix of the input that does not start with a character `trim` removes, and every character cut off is one `trim` removes |
| Text.TrimEnd | src/main/java/com/libraryms/LibraryManagementApplication.java:766-769 | the result is a prefix of the input that does not end with a character `trim` removes, and every character cut off is one `trim` removes |
| Text.BlankIffAllTrimmed | src/main/java/com/libraryms/LibraryManagementApplication.java:708 | `s.trim().isEmpty()` holds exactly when every character of `s` is at most U+0020 |
| Text.ContainsIffOccurs | src/main/java/com/libraryms/LibraryManagementApplication.java:219-221 | `contains` holds exactly when the term occurs at some position of the string |
| Text.ZeroPad6RoundTrip | src/main/java/com/libraryms/LibraryManagementApplication.java:415 | the number can be read back from its `%06d` form |
| Text.PrefixedZeroPad6Injective | src/main/java/com/libraryms/LibraryManagementApplication.java:630 | the same prefix followed by two `%06d` forms gives the same string only for the same number |
| Text.ZeroPad6Length | src/main/java/com/libraryms/LibraryManagementApplication.java:415 | below one million the `%06d` form has exactly six characters |
| Lists.FirstIndex | src/main/java/com/libraryms/LibraryManagementApplication.java:326-333 | the index found is in range and its element matches, no earlier element matches, and there is no index exactly when no element matches |
| Lists.Filter | src/main/java/com/libraryms/LibraryManagementApplication.java:215-224 | the result is no longer than the list, and holds an element exactly when the list holds it and it matches |
| Lists.FilterAppend | src/main/java/com/libraryms/LibraryManagementApplication.java:218-224 | filtering a concatenation gives the two filtered parts in order, so the list order is kept |
| LibraryModel.MemberIdFor | src/main/java/com/libraryms/LibraryManagementApplication.java:415 | `MEM` followed by the counter in `%06d` form (see `MemberIdInjective`, `MemberIdRoundTrip`) |
| LibraryModel.TransactionIdFor | src/main/java/com/libraryms/LibraryManagementApplication.java:630 | `TXN` followed by the counter in `%06d` form (see `TransactionIdInjective`) |
| LibraryModel.SampleState | src/main/java/com/libraryms/LibraryManagementApplication.java:31-51 | the two sample books and the members MEM000001 and MEM000002, with no transactions (see `SampleConsistent`) |
| LibraryModel.Borrow | src/main/java/com/libraryms/LibraryManagementApplication.java:599-643 | `borrowBook` on the state: checks and failures in `BorrowChecksInOrder`, the success in `BorrowCommits` and `BorrowEffects`, the invariant in `BorrowPreservesConsistent` |
| LibraryModel.Return | src/main/java/com/libraryms/LibraryManagementApplication.java:645-694 | `returnBook` on the state: checks and failures in `ReturnChecksInOrder`, the success in `ReturnCommits` and `ReturnEffects`, no fine in `NoFineAtReturn`, the invariant in `ReturnPreservesConsistent` |
| LibraryModel.AddBook | src/main/java/com/libraryms/LibraryManagementApplication.java:161-209 | `addNewBook` on the state: outcomes in `AddBookEffects`, the invariant in `AddBookPreservesConsistent` |
| LibraryModel.Register | src/main/java/com/libraryms/LibraryManagementApplication.java:384-430 | `registerNewMember` on the state: outcomes in `RegisterEffects`, the invariant in `RegisterPreservesConsistent` |
| LibraryModel.Delete | src/main/java/com/libraryms/LibraryManagementApplication.java:305-324 | `deleteBook` on the state: outcomes in `DeleteEffects`, the invariant in `DeletePreservesConsistent` |
| LibraryModel.UpdateBook | src/main/java/com/libraryms/LibraryManagementApplication.java:261-303 | `updateBookInfo` on the state: outcomes in `UpdateBookKeepsLending`, the invariant in `UpdateBookPreservesConsistent` |
| LibraryModel.UpdateMember | src/main/java/com/libraryms/LibraryManagementApplication.java:483-519 | `updateMemberInfo` on the state: outcomes in `UpdateMemberKeepsLending`, the invariant in `UpdateMemberPreservesConsistent` |
| LibraryModel.SearchBooks | src/main/java/com/libraryms/LibraryManagementApplication.java:211-232 | the books whose title, author or ISBN contains the query ignoring case, in catalogue order (see `SearchBooksExact`, `ListingsKeepOrder`) |
| LibraryModel.SearchMembers | src/main/java/com/libraryms/LibraryManagementApplication.java:432-454 | the members whose first name, last name, id or email contains the query ignoring case, in list order (see `SearchMembersExact`, `ListingsKeepOrder`) |
| LibraryModel.History | src/main/java/com/libraryms/LibraryManagementApplication.java:706-711 | every transaction for a blank id, otherwise those of the member, in order (see `HistoryBlankIsAll`, `HistoryOfMember`) |
| LibraryModel.Overdue | src/main/java/com/libraryms/LibraryManagementApplication.java:725-730 | the overdue transactions, in order (see `OverdueExact`, `BorrowKeepsOverdueListing`) |
| LibraryModel.MemberIdInjective | src/main/java/com/libraryms/LibraryManagementApplication.java:415 | two counter values give the same `MEM` id exactly when they are equal |
| LibraryModel.TransactionIdInjective | src/main/java/com/libraryms/LibraryManagementApplication.java:630 | two counter values give the same `TXN` id exactly when they are equal |
| LibraryModel.MemberIdRoundTrip | src/main/java/com/libraryms/LibraryManagementApplication.java:415 | a member id is `MEM` followed by digits that read back as the counter value, nine characters long below one million |
| LibraryModel.BorrowCommits | src/main/java/com/libraryms/LibraryManagementApplication.java:629-637 | once member and book are found and both checks pass, borrowing takes one copy off the book and adds one book to the member; it appends a new BORROW transaction with the next `TXN` id, bumps the counter and reports that id |
| LibraryModel.ReturnCommits | src/main/java/com/libraryms/LibraryManagementApplication.java:679-693 | once member, book and loan are found, the loan is completed, the copy goes back, the count goes down, and a positive fine is added to the member and reported |
| LibraryModel.Truncate | src/main/java/com/libraryms/LibraryManagementApplication.java:796-799 | a missing string gives ""; a string that fits comes back unchanged; a longer one with length >= 3 becomes its first length-3 characters plus "...", exactly length long; a length below 3 on a longer string is the `substring` exception, exactly then; a result is never longer than the input or than a non-negative length |
| LibraryInvariant.SampleConsistent | src/main/java/com/libraryms/LibraryManagementApplication.java:31-51 | the sample data (two books, MEM000001 and MEM000002, member counter 3) satisfies the invariant |
| LibraryInvariant.UnknownMemberHasNoLoans | src/main/java/com/libraryms/LibraryManagementApplication.java:415-416 | the next member id to be handed out has no ACTIVE loans |
| LibraryInvariant.BorrowKeepsAccounts | src/main/java/com/libraryms/LibraryManagementApplication.java:629-637 | adding one to a member's count together with appending an ACTIVE loan for it keeps every member's count equal to its number of ACTIVE loans |
| LibraryInvariant.BorrowKeepsLoans | src/main/java/com/libraryms/LibraryManagementApplication.java:630-637 | appending a well-formed loan for a known member with the next `TXN` id keeps the transaction list well formed and in id order |
| LibraryInvariant.BorrowStepConsistent | src/main/java/com/libraryms/LibraryManagementApplication.java:629-637 | the state after the borrow commit satisfies the invariant |
| LibraryInvariant.BorrowPreservesConsistent | src/main/java/com/libraryms/LibraryManagementApplication.java:599-643 | borrowing keeps the invariant |
| LibraryInvariant.ReturnKeepsAccounts | src/main/java/com/libraryms/LibraryManagementApplication.java:679-687 | completing one of a member's ACTIVE loans together with lowering its count keeps every count equal to its number of ACTIVE loans |
| LibraryInvariant.ReturnKeepsLoans | src/main/java/com/libraryms/LibraryManagementApplication.java:680 | completing an ACTIVE loan keeps the transaction list well formed and in id order |
| LibraryInvariant.ReturnStepConsistent | src/main/java/com/libraryms/LibraryManagementApplication.java:679-693 | the state after the return commit satisfies the invariant |
| LibraryInvariant.ReturnPreservesConsistent | src/main/java/com/libraryms/LibraryManagementApplication.java:645-694 | returning keeps the invariant |
| LibraryInvariant.AddBookStepConsistent | src/main/java/com/libraryms/LibraryManagementApplication.java:202 | appending a valid book with a new ISBN keeps the invariant |
| LibraryInvariant.AddBookPreservesConsistent | src/main/java/com/libraryms/LibraryManagementApplication.java:161-209 | adding a book keeps the invariant |
| LibraryInvariant.AppendMemberKeepsIds | src/main/java/com/libraryms/LibraryManagementApplication.java:393-423 | appending a member with the next `MEM` id and an email not in use ignoring case keeps ids in order and emails unique |
| LibraryInvariant.RegisterStepConsistent | src/main/java/com/libraryms/LibraryManagementApplication.java:415-423 | appending a fresh member with the next id and a new email, and bumping the counter, keeps the invariant |
| LibraryInvariant.RegisterPreservesConsistent | src/main/java/com/libraryms/LibraryManagementApplication.java:384-430 | registering a member keeps the invariant |
| LibraryInvariant.DeleteStepConsistent | src/main/java/com/libraryms/LibraryManagementApplication.java:319 | removing any one book keeps the invariant |
| LibraryInvariant.DeletePreservesConsistent | src/main/java/com/libraryms/LibraryManagementApplication.java:305-324 | deleting a book keeps the invariant |
| LibraryInvariant.UpdateBookPreservesConsistent | src/main/java/com/libraryms/LibraryManagementApplication.java:261-303 | editing a book keeps the invariant |
| LibraryInvariant.UpdateMemberPreservesConsistent | src/main/java/com/libraryms/LibraryManagementApplication.java:483-519 | editing a member keeps the invariant |
| LibraryProperties.BorrowChecksInOrder | src/main/java/com/libraryms/LibraryManagementApplication.java:602-627 | the checks run in order: unknown member, then a member who may not borrow, then unknown book, then unavailable book, each reported exactly when it is the first to fail, and a success exactly when all pass; any failure leaves the state unchanged |
| LibraryProperties.BorrowEffects | src/main/java/com/libraryms/LibraryManagementApplication.java:629-637 | a successful borrow reports the next `TXN` id and appends exactly one ACTIVE BORROW for that member and book, due in 14 days with no fine; it bumps that counter alone, lowers that book's copies by one and raises that member's count by one; no other book or member changes and the fines stay |
| LibraryProperties.ReturnChecksInOrder | src/main/java/com/libraryms/LibraryManagementApplication.java:648-677 | unknown member, then unknown book, then no ACTIVE BORROW for the pair, each reported exactly when it is the first to fail; any failure leaves the state unchanged |
| LibraryProperties.ReturnEffects | src/main/java/com/libraryms/LibraryManagementApplication.java:679-693 | a successful return completes the first ACTIVE BORROW for the pair (return date today, COMPLETED) and no other transaction; the list length stays; one copy comes back to that book; that member's count drops (never below 0) and its fines grow by the loan's fine only when positive; nothing else changes and the report matches the fine |
| LibraryProperties.NoFineAtReturn | src/main/java/com/libraryms/LibraryManagementApplication.java:686-693 | in a consistent state no return reports a fine and every member still owes 0 |
| LibraryProperties.FinesNeverBlockBorrowing | src/main/java/com/libraryms/model/SimpleMember.java:80-82 | in a consistent state the fines test of `canBorrowBooks` always passes: a member may borrow exactly when active and under the limit |
| LibraryProperties.CompletedLoansStayPut | src/main/java/com/libraryms/LibraryManagementApplication.java:662-672 | neither a borrow nor a return changes a COMPLETED transaction |
| LibraryProperties.BorrowThenReturnRestores | src/main/java/com/libraryms/LibraryManagementApplication.java:599-694 | in a consistent state, a successful borrow followed by the return of the same book by the same member reports "on time" and gives back the original books and members, with one more transaction on record |
| LibraryProperties.AddBookEffects | src/main/java/com/libraryms/LibraryManagementApplication.java:161-209 | a duplicate ISBN is rejected exactly when some book has that ISBN, and first; a bad category choice is rejected exactly when the ISBN is new and the choice is out of range; a book is added exactly when the ISBN is new and the choice is in range; a rejection changes nothing; a success appends one available book with the chosen category, the publisher unless blank and the given year, and changes nothing else |
| LibraryProperties.RegisterEffects | src/main/java/com/libraryms/LibraryManagementApplication.java:384-430 | an email is rejected exactly when some member has it ignoring case, and first; a bad type choice is rejected exactly when the email is new and the choice is out of range; a member is registered exactly when the email is new and the choice is in range; a rejection changes nothing and takes no id; a success appends one ACTIVE member with no books or fines, the next `MEM` id, the chosen type and the phone unless blank, bumps that counter alone and reports the id |
| LibraryProperties.DeleteEffects | src/main/java/com/libraryms/LibraryManagementApplication.java:305-324 | a book is deleted exactly when one has the ISBN and the answer is "yes" ignoring case; then that one book is cut out of the list and the others keep their order, so the list is one shorter and holds exactly the books with another ISBN; otherwise nothing changes; members, loans and counters never change |
| LibraryProperties.UpdateBookKeepsLending | src/main/java/com/libraryms/LibraryManagementApplication.java:261-303 | an edit succeeds exactly for a known ISBN and a choice in `1..3`; it never changes a book's ISBN, category, copies or status, nor any other book, member or transaction; a failure or cancel changes nothing |
| LibraryProperties.UpdateMemberKeepsLending | src/main/java/com/libraryms/LibraryManagementApplication.java:483-519 | an edit succeeds exactly for a known member and a choice in `1..2`; it never changes a member's id, email, type, status, end date, fines or count, nor any other member, book or transaction; a failure or cancel changes nothing |
| LibraryProperties.SearchBooksExact | src/main/java/com/libraryms/LibraryManagementApplication.java:215-224 | a book is found exactly when it is in the catalogue and its lower-cased title, author or ISBN contains the lower-cased query |
| LibraryProperties.SearchMembersExact | src/main/java/com/libraryms/LibraryManagementApplication.java:436-446 | a member is found exactly when registered and its lower-cased first name, last name, id or email contains the lower-cased query |
| LibraryProperties.ListingsKeepOrder | src/main/java/com/libraryms/LibraryManagementApplication.java:706-711 | each search, history and overdue listing of a concatenation is the two listings in order |
| LibraryProperties.HistoryBlankIsAll | src/main/java/com/libraryms/LibraryManagementApplication.java:708 | with a blank member id the history is every transaction, in order |
| LibraryProperties.HistoryOfMember | src/main/java/com/libraryms/LibraryManagementApplication.java:706-711 | with a non-blank member id the history holds exactly the transactions with that member id |
| LibraryProperties.OverdueExact | src/main/java/com/libraryms/LibraryManagementApplication.java:725-730 | in a consistent state a transaction is overdue exactly when it is ACTIVE and today is after its due date |
| LibraryProperties.BorrowKeepsOverdueListing | src/main/java/com/libraryms/LibraryManagementApplication.java:725-730 | a borrow never changes the overdue listing of the same day |
| LibraryApp.CreateBook | src/main/java/com/libraryms/LibraryManagementApplication.java:189-200 | a fresh book object whose fields are `NewBook`'s with the given publisher and year |
| LibraryApp.CreateMember | src/main/java/com/libraryms/LibraryManagementApplication.java:416-421 | a fresh member object whose fields are `NewMember`'s with the given phone number |
| LibraryApp.Library.constructor | src/main/java/com/libraryms/LibraryManagementApplication.java:23-29 | the new application holds the sample state and satisfies the class invariant |
| LibraryApp.Library.InitializeWithSampleData | src/main/java/com/libraryms/LibraryManagementApplication.java:31-51 | from empty lists and counters at 1, the state becomes the sample state with no object listed twice |
| LibraryApp.Library.AddSampleBook | src/main/java/com/libraryms/LibraryManagementApplication.java:32-35 | one new book with publisher and year is appended and nothing else changes |
| LibraryApp.Library.AddSampleMember | src/main/java/com/libraryms/LibraryManagementApplication.java:42-45 | one new member with the next `MEM` id and a phone number is appended, the counter goes up by one, and nothing else changes |
| LibraryApp.Library.FindBookByIsbn | src/main/java/com/libraryms/LibraryManagementApplication.java:326-333 | returns the first book with the ISBN, or null exactly when there is none; changes nothing |
| LibraryApp.Library.FindMemberById | src/main/java/com/libraryms/LibraryManagementApplication.java:545-552 | returns the first member with the id, or null exactly when there is none; changes nothing |
| LibraryApp.Library.FindActiveBorrow | src/main/java/com/libraryms/LibraryManagementApplication.java:662-672 | returns the first ACTIVE BORROW of the member for the book, or null exactly when there is none; changes nothing |
| LibraryApp.Library.EmailInUse | src/main/java/com/libraryms/LibraryManagementApplication.java:393-398 | true exactly when some member's email equals the given one ignoring case; changes nothing |
| LibraryApp.Library.BorrowBook | src/main/java/com/libraryms/LibraryManagementApplication.java:599-643 | the new state and the report are those of `LibraryModel.Borrow`, and the class invariant is kept |
| LibraryApp.Library.LendCopy | src/main/java/com/libraryms/LibraryManagementApplication.java:629-637 | the commit of a borrow: the state becomes `BorrowCommits`' state and the next `TXN` id is returned |
| LibraryApp.Library.ReturnBook | src/main/java/com/libraryms/LibraryManagementApplication.java:645-694 | the new state and the report are those of `LibraryModel.Return`, and the class invariant is kept |
| LibraryApp.Library.SettleReturn | src/main/java/com/libraryms/LibraryManagementApplication.java:679-693 | the commit of a return: the state becomes `ReturnCommits`' state and the report matches the fine |
| LibraryApp.Library.AddNewBook | src/main/java/com/libraryms/LibraryManagementApplication.java:161-209 | the new state and the report are those of `LibraryModel.AddBook`, and the class invariant is kept |
| LibraryApp.Library.RegisterNewMember | src/main/java/com/libraryms/LibraryManagementApplication.java:384-430 | the new state and the report are those of `LibraryModel.Register`, and the class invariant is kept |
| LibraryApp.Library.DeleteBook | src/main/java/com/libraryms/LibraryManagementApplication.java:305-324 | the new state and the report are those of `LibraryModel.Delete`, and the class invariant is kept |
| LibraryApp.Library.RemoveBook | src/main/java/com/libraryms/LibraryManagementApplication.java:319 | `books.remove(book)` removes the first book equal to it by ISBN, which is the given one, and nothing else |
| LibraryApp.Library.UpdateBookInfo | src/main/java/com/libraryms/LibraryManagementApplication.java:261-303 | the new state and the report are those of `LibraryModel.UpdateBook`, and the class invariant is kept |
| LibraryApp.Library.UpdateMemberInfo | src/main/java/com/libraryms/LibraryManagementApplication.java:483-519 | the new state and the report are those of `LibraryModel.UpdateMember`, and the class invariant is kept |
| LibraryApp.Library.SearchBooks | src/main/java/com/libraryms/LibraryManagementApplication.java:211-232 | the books found are, in order, those of `LibraryModel.SearchBooks` (see `SearchBooksExact`), all taken from the catalogue |
| LibraryApp.Library.SearchMembers | src/main/java/com/libraryms/LibraryManagementApplication.java:432-454 | the members found are, in order, those of `LibraryModel.SearchMembers` (see `SearchMembersExact`), all taken from the member list |
| LibraryApp.Library.ViewTransactionHistory | src/main/java/com/libraryms/LibraryManagementApplication.java:696-720 | the transactions listed are, in order, those of `LibraryModel.History` (see `HistoryBlankIsAll`, `HistoryOfMember`), all taken from the list |
| LibraryApp.Library.TransactionsHeldBy | src/main/java/com/libraryms/LibraryManagementApplication.java:706-711 | the loop keeps, in order, exactly the transactions of the member, or all of them when asked for everyone |
| LibraryApp.Library.ViewOverdueBooks | src/main/java/com/libraryms/LibraryManagementApplication.java:722-739 | the transactions listed are, in order, those of `LibraryModel.Overdue` (see `OverdueExact`), all taken from the list |

## Left out

- Console I/O, the menus, the main loop, the banner and all table rendering (`display*`, `print*`) are not modelled. Their inputs are operation parameters, and their output is the `Outcome` value or the returned list.
- `viewAllBooks`, `viewAllMembers` and `viewMemberDetails` only print existing data, so they are not modelled.
- The reprompt loop of `readIntegerInput` is left out because it is console interaction: a choice arrives as an `int`. The parsing in `readOptionalIntegerInput` is left out for the same reason: the year arrives as an `Option<int>`.
- Wall-clock timestamps carry no lending rule and are not fields of the model: `dateAdded`, `lastUpdated` and `transactionDate`.
- Fields that only the unused setters touch are not fields of the model: `description`, `notes` and `dateOfBirth`.
- The getters and the setters the application never calls are not modelled. The fields behind them that the application never changes are `const`: ISBN, category, total copies, member identity and type, transaction identity and due date.
- The `toString` methods of `SimpleBook`, `SimpleMember` and `SimpleTransaction` only format text, so they are left out. The enums' `toString` returns the display name, which is modelled as `DisplayName`; their `description` fields are left out.
- Money is integer cents, not `double`, and `%.2f` formatting is not modelled; no IEEE rounding is modelled.
- `LocalDate.plusMonths` is a parameter, because calendar arithmetic is not modelled; `plusWeeks(2)` is 14 day numbers.
- Case folding (`toLowerCase`, `equalsIgnoreCase`) covers ASCII letters only; `trim` removes characters up to U+0020 as Java does.
- LibraryModel.Truncate: measures length in characters of `seq<char>`, not UTF-16 code units, and `null` is `None`.
- LibraryModel.SearchMembers: the `email != null` test in `searchMembers` is left out, because it always passes: every member is created with an email read from the console.
- LibraryModel.Return: follows the code, which never charges a fine at return, rather than the intended 0.50 per overdue day (see above).
- The ID counters are unbounded `nat`s: Java `int` overflow after 2^31 - 1 registrations or loans is not modelled. `%06d` is modelled for any width, and `LibraryModel.MemberIdRoundTrip` states the nine-character form only below one million.
- Exceptions inside `addNewBook` and `registerNewMember` are not modelled: no call in them can throw on the inputs the model admits, so their `catch` blocks are unreachable here.
- Aliasing between the lists is excluded by the class invariant, because each object is created once and appended to one list.
