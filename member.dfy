/** A library member: eligibility, borrowed-book count and fines (SimpleMember.java). */
module Members {
  import opened Wrappers
  import opened MemberTypes
  import opened MemberStatuses

  /** Fines at or above this many cents (50.00) stop a member from borrowing. */
  const FineLimitCents := 5000

  /** The exception `borrowBook` throws: "Member cannot borrow more books". */
  datatype MemberError = CannotBorrowMoreBooks

  /** The state of a member, as a value. Dates are day numbers; money is in cents. */
  datatype MemberRec = MemberRec(
    memberId: string,
    firstName: string,
    lastName: string,
    email: string,
    phoneNumber: Option<string>,
    address: Option<string>,
    memberType: MemberType,
    status: MemberStatus,
    membershipStartDate: int,
    membershipEndDate: int,
    totalFinesOwed: int,
    currentBorrowedBooks: int)
  {
    /** `getFullName`: first name, one space, last name. */
    function FullName(): (r: string)
      ensures |r| == |firstName| + 1 + |lastName|
      ensures r[..|firstName|] == firstName && r[|firstName|] == ' ' && r[|firstName| + 1..] == lastName
    {
      firstName + " " + lastName
    }

    /** `isActive`: status ACTIVE and the membership ends strictly after today. */
    predicate IsActive(today: int)
    {
      status == Active && membershipEndDate > today
    }

    /** `canBorrowBooks`: active, below the type's limit, and owing less than 50.00. */
    predicate CanBorrowBooks(today: int)
    {
      IsActive(today) && currentBorrowedBooks < memberType.MaxBooksAllowed() && totalFinesOwed < FineLimitCents
    }

    /** The borrowed count never exceeds what the member type allows. */
    predicate Valid()
    {
      0 <= currentBorrowedBooks <= memberType.MaxBooksAllowed()
    }

    /** `addFine`. */
    function AddFine(amount: int): (r: MemberRec)
      ensures r.totalFinesOwed == totalFinesOwed + amount
      ensures r.(totalFinesOwed := totalFinesOwed) == this
      ensures amount >= 0 && totalFinesOwed >= 0 ==> r.totalFinesOwed >= totalFinesOwed >= 0
    {
      this.(totalFinesOwed := totalFinesOwed + amount)
    }

    /** `payFine`: the debt goes down by `amount` but never below zero. */
    function PayFine(amount: int): (r: MemberRec)
      ensures r.totalFinesOwed >= 0
      ensures r.totalFinesOwed == 0 || r.totalFinesOwed == totalFinesOwed - amount
      ensures r.totalFinesOwed == 0 <==> totalFinesOwed <= amount
      ensures amount >= 0 ==> r.totalFinesOwed <= totalFinesOwed || r.totalFinesOwed == 0
      ensures r.(totalFinesOwed := totalFinesOwed) == this
    {
      this.(totalFinesOwed := if totalFinesOwed - amount > 0 then totalFinesOwed - amount else 0)
    }

    /** `borrowBook`: one more book when the member may borrow; otherwise the exception,
        with nothing changed. */
    function BorrowBook(today: int): (r: Result<MemberRec, MemberError>)
      ensures r.Success? <==> CanBorrowBooks(today)
      ensures r.Success? ==> r.value.currentBorrowedBooks == currentBorrowedBooks + 1
      ensures r.Success? ==> r.value.(currentBorrowedBooks := currentBorrowedBooks) == this
      ensures r.Success? && Valid() ==> r.value.Valid()
    {
      if CanBorrowBooks(today) then Success(this.(currentBorrowedBooks := currentBorrowedBooks + 1))
      else Failure(CannotBorrowMoreBooks)
    }

    /** `returnBook`: one book fewer, but never below zero. */
    function ReturnBook(): (r: MemberRec)
      ensures currentBorrowedBooks > 0 ==> r.currentBorrowedBooks == currentBorrowedBooks - 1
      ensures currentBorrowedBooks <= 0 ==> r == this
      ensures r.(currentBorrowedBooks := currentBorrowedBooks) == this
      ensures Valid() ==> r.Valid()
    {
      if currentBorrowedBooks > 0 then this.(currentBorrowedBooks := currentBorrowedBooks - 1) else this
    }

    /** `renewMembership`: the end date moves by `months` calendar months (`plusMonths`
        stands for `LocalDate.plusMonths`); an EXPIRED member becomes ACTIVE and every
        other status, INACTIVE included, stays as it was. */
    function RenewMembership(months: int, plusMonths: (int, int) -> int): (r: MemberRec)
      ensures r.membershipEndDate == plusMonths(membershipEndDate, months)
      ensures status == Expired ==> r.status == Active
      ensures status != Expired ==> r.status == status
      ensures r.(membershipEndDate := membershipEndDate, status := status) == this
    {
      this.(membershipEndDate := plusMonths(membershipEndDate, months),
            status := if status == Expired then Active else status)
    }
  }

  /** `new SimpleMember(...)`: active from today for the type's duration, no fines, no books. */
  function NewMember(memberId: string, firstName: string, lastName: string, email: string,
                     memberType: MemberType, today: int, plusMonths: (int, int) -> int): (r: MemberRec)
    ensures r.memberId == memberId && r.firstName == firstName && r.lastName == lastName && r.email == email
    ensures r.memberType == memberType && r.status == Active
    ensures r.membershipStartDate == today
    ensures r.membershipEndDate == plusMonths(today, memberType.MembershipDurationMonths())
    ensures r.totalFinesOwed == 0 && r.currentBorrowedBooks == 0
    ensures r.phoneNumber == None && r.address == None
    ensures r.Valid()
  {
    MemberRec(memberId, firstName, lastName, email, None, None, memberType, Active, today,
              plusMonths(today, memberType.MembershipDurationMonths()), 0, 0)
  }

  /** A new member may borrow at once, provided the calendar puts the end of the membership
      after today. */
  lemma NewMemberCanBorrow(memberId: string, firstName: string, lastName: string, email: string,
                           memberType: MemberType, today: int, plusMonths: (int, int) -> int)
    requires plusMonths(today, memberType.MembershipDurationMonths()) > today
    ensures NewMember(memberId, firstName, lastName, email, memberType, today, plusMonths).CanBorrowBooks(today)
  {
    LimitsPositive(memberType);
  }

  /** Renewal reactivates only EXPIRED members, although INACTIVE ones also count as renewable. */
  lemma RenewLeavesInactive(m: MemberRec, months: int, plusMonths: (int, int) -> int)
    requires m.status == Inactive
    ensures m.status.CanRenewMembership()
    ensures m.RenewMembership(months, plusMonths).status == Inactive
  {
  }

  /** A member object. The identity, names, email, type and start date are fixed at
      registration (the application never calls their setters); the rest changes in place. */
  class Member {
    const memberId: string
    const firstName: string
    const lastName: string
    const email: string
    var phoneNumber: Option<string>
    var address: Option<string>
    const memberType: MemberType
    var status: MemberStatus
    const membershipStartDate: int
    var membershipEndDate: int
    var totalFinesOwed: int
    var currentBorrowedBooks: int

    /** The current field values. */
    function Rec(): MemberRec
      reads this
    {
      MemberRec(memberId, firstName, lastName, email, phoneNumber, address, memberType, status,
                membershipStartDate, membershipEndDate, totalFinesOwed, currentBorrowedBooks)
    }

    constructor (memberId: string, firstName: string, lastName: string, email: string,
                 memberType: MemberType, today: int, plusMonths: (int, int) -> int)
      ensures Rec() == NewMember(memberId, firstName, lastName, email, memberType, today, plusMonths)
    {
      this.memberId := memberId;
      this.firstName := firstName;
      this.lastName := lastName;
      this.email := email;
      this.phoneNumber := None;
      this.address := None;
      this.memberType := memberType;
      this.status := Active;
      this.membershipStartDate := today;
      this.membershipEndDate := plusMonths(today, memberType.MembershipDurationMonths());
      this.totalFinesOwed := 0;
      this.currentBorrowedBooks := 0;
    }

    function FullName(): string
      reads this
    {
      Rec().FullName()
    }

    predicate IsActive(today: int)
      reads this
    {
      Rec().IsActive(today)
    }

    predicate CanBorrowBooks(today: int)
      reads this
    {
      Rec().CanBorrowBooks(today)
    }

    method AddFine(amount: int)
      modifies this
      ensures Rec() == old(Rec()).AddFine(amount)
    {
      totalFinesOwed := totalFinesOwed + amount;
    }

    method PayFine(amount: int)
      modifies this
      ensures Rec() == old(Rec()).PayFine(amount)
    {
      var rest := totalFinesOwed - amount;
      totalFinesOwed := if rest > 0 then rest else 0;
    }

    /** Returns the exception it throws, or None when it returns normally. */
    method BorrowBook(today: int) returns (thrown: Option<MemberError>)
      modifies this
      ensures match old(Rec()).BorrowBook(today)
              case Success(m) => thrown == None && Rec() == m
              case Failure(e) => thrown == Some(e) && Rec() == old(Rec())
    {
      if CanBorrowBooks(today) {
        currentBorrowedBooks := currentBorrowedBooks + 1;
        thrown := None;
      } else {
        thrown := Some(CannotBorrowMoreBooks);
      }
    }

    method ReturnBook()
      modifies this
      ensures Rec() == old(Rec()).ReturnBook()
    {
      if currentBorrowedBooks > 0 {
        currentBorrowedBooks := currentBorrowedBooks - 1;
      }
    }

    method RenewMembership(months: int, plusMonths: (int, int) -> int)
      modifies this
      ensures Rec() == old(Rec()).RenewMembership(months, plusMonths)
    {
      membershipEndDate := plusMonths(membershipEndDate, months);
      if status == Expired {
        status := Active;
      }
    }

    method SetPhoneNumber(phone: string)
      modifies this
      ensures Rec() == old(Rec()).(phoneNumber := Some(phone))
    {
      phoneNumber := Some(phone);
    }

    method SetAddress(address: string)
      modifies this
      ensures Rec() == old(Rec()).(address := Some(address))
    {
      this.address := Some(address);
    }
  }
}
