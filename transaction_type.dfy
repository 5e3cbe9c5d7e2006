/** Kinds of lending transaction (TransactionType.java). */
module TransactionTypes {

  datatype TransactionType =
    | Borrow | Return | Renew | Reserve | CancelReservation | FinePayment | LostBook | DamagedBook
  {
    /** The display name, which is also what `toString` returns. */
    function DisplayName(): string
    {
      match this
      case Borrow => "Borrow"
      case Return => "Return"
      case Renew => "Renew"
      case Reserve => "Reserve"
      case CancelReservation => "Cancel Reservation"
      case FinePayment => "Fine Payment"
      case LostBook => "Lost Book"
      case DamagedBook => "Damaged Book"
    }

    /** `affectsAvailability`: the transaction changes how many copies are on the shelf. */
    predicate AffectsAvailability()
    {
      this == Borrow || this == Return || this == LostBook
    }

    /** `requiresAvailableBook`: the transaction needs a copy on the shelf. */
    predicate RequiresAvailableBook()
    {
      this == Borrow || this == Reserve
    }
  }

  /** BORROW is the only type that both needs an available copy and changes availability. */
  lemma OnlyBorrowDoesBoth(t: TransactionType)
    ensures t.AffectsAvailability() && t.RequiresAvailableBook() <==> t == Borrow
  {
  }

  /** Distinct types are displayed differently. */
  lemma DisplayNameInjective(a: TransactionType, b: TransactionType)
    ensures a.DisplayName() == b.DisplayName() <==> a == b
  {
  }
}
