/** States of a lending transaction (TransactionStatus.java). */
module TransactionStatuses {

  datatype TransactionStatus = Pending | Active | Returned | Overdue | Cancelled | Completed | Failed
  {
    /** The display name, which is also what `toString` returns. */
    function DisplayName(): string
    {
      match this
      case Pending => "Pending"
      case Active => "Active"
      case Returned => "Returned"
      case Overdue => "Overdue"
      case Cancelled => "Cancelled"
      case Completed => "Completed"
      case Failed => "Failed"
    }

    /** `isActiveBorrowing`: the book is still out. */
    predicate IsActiveBorrowing()
    {
      this == Active || this == Overdue
    }

    /** `isCompleted`: the transaction has reached a final state. */
    predicate IsCompleted()
    {
      this == Returned || this == Completed || this == Cancelled
    }
  }

  /** A transaction cannot be both still borrowing and finished. */
  lemma ActiveAndCompletedExclusive(s: TransactionStatus)
    ensures !(s.IsActiveBorrowing() && s.IsCompleted())
  {
  }

  /** PENDING and FAILED are neither borrowing nor completed; every other status is one of the two. */
  lemma NeitherExactlyPendingOrFailed(s: TransactionStatus)
    ensures !s.IsActiveBorrowing() && !s.IsCompleted() <==> s == Pending || s == Failed
  {
  }

  /** Distinct statuses are displayed differently. */
  lemma DisplayNameInjective(a: TransactionStatus, b: TransactionStatus)
    ensures a.DisplayName() == b.DisplayName() <==> a == b
  {
  }
}
