/** Lifecycle states of a book (BookStatus.java). */
module BookStatuses {

  datatype BookStatus = Available | Borrowed | Reserved | Maintenance | Lost | Damaged | Withdrawn
  {
    /** The display name, which is also what `toString` returns. */
    function DisplayName(): string
    {
      match this
      case Available => "Available"
      case Borrowed => "Borrowed"
      case Reserved => "Reserved"
      case Maintenance => "Under Maintenance"
      case Lost => "Lost"
      case Damaged => "Damaged"
      case Withdrawn => "Withdrawn"
    }

    /** `canBeBorrowed`. */
    predicate CanBeBorrowed()
    {
      this == Available
    }

    /** `isActive`: the book is still part of the collection. */
    predicate IsActive()
    {
      this != Lost && this != Withdrawn
    }
  }

  /** A status that can be borrowed is an active one. */
  lemma CanBeBorrowedIsActive(s: BookStatus)
    ensures s.CanBeBorrowed() ==> s.IsActive()
  {
  }

  /** Distinct statuses are displayed differently. */
  lemma DisplayNameInjective(a: BookStatus, b: BookStatus)
    ensures a.DisplayName() == b.DisplayName() <==> a == b
  {
  }
}
