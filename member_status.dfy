/** Account states of a member (MemberStatus.java). */
module MemberStatuses {

  datatype MemberStatus = Active | Suspended | Expired | Blocked | Inactive
  {
    /** The display name, which is also what `toString` returns. */
    function DisplayName(): string
    {
      match this
      case Active => "Active"
      case Suspended => "Suspended"
      case Expired => "Expired"
      case Blocked => "Blocked"
      case Inactive => "Inactive"
    }

    /** `canBorrowBooks` of the status alone. */
    predicate CanBorrowBooks()
    {
      this == Active
    }

    /** `canRenewMembership`. */
    predicate CanRenewMembership()
    {
      this == Expired || this == Inactive
    }
  }

  /** No status both allows borrowing and asks for renewal. */
  lemma BorrowAndRenewExclusive(s: MemberStatus)
    ensures !(s.CanBorrowBooks() && s.CanRenewMembership())
  {
  }

  /** Distinct statuses are displayed differently. */
  lemma DisplayNameInjective(a: MemberStatus, b: MemberStatus)
    ensures a.DisplayName() == b.DisplayName() <==> a == b
  {
  }
}
