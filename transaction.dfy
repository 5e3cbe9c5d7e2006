/** A loan record: due date, overdue test and fine (SimpleTransaction.java). */
module Transactions {
  import opened Wrappers
  import opened TransactionTypes
  import opened TransactionStatuses

  /** `plusWeeks(2)`: the loan period in days. */
  const LoanPeriodDays := 14

  /** 0.50 per day overdue, in cents. */
  const FinePerDayCents := 50

  /** The state of a transaction, as a value. Dates are day numbers; money is in cents. */
  datatype TxnRec = TxnRec(
    transactionId: string,
    memberId: string,
    bookIsbn: string,
    txnType: TransactionType,
    dueDate: Option<int>,
    returnDate: Option<int>,
    fineAmount: int,
    status: TransactionStatus)
  {
    /** `isOverdue`: an ACTIVE loan (type BORROW) whose due date lies before today. */
    predicate IsOverdue(today: int)
    {
      txnType == Borrow && status == Active && dueDate.Some? && today > dueDate.value
    }

    /** `getDaysOverdue`: whole days past the due date, 0 unless overdue. */
    function DaysOverdue(today: int): (r: int)
      ensures r >= 0
      ensures r > 0 <==> IsOverdue(today)
      ensures IsOverdue(today) ==> r == today - dueDate.value
    {
      if !IsOverdue(today) then 0 else today - dueDate.value
    }

    /** `calculateFine`: when overdue, the fine becomes 50 cents per day overdue;
        otherwise it keeps its value. */
    function CalculateFine(today: int): (r: TxnRec)
      ensures IsOverdue(today) ==> r.fineAmount == FinePerDayCents * (today - dueDate.value) > 0
      ensures !IsOverdue(today) ==> r == this
      ensures r.(fineAmount := fineAmount) == this
    {
      if IsOverdue(today) then this.(fineAmount := DaysOverdue(today) * FinePerDayCents) else this
    }

    /** `completeReturn`: sets the return date and the status COMPLETED and only then
        calculates the fine, which therefore never changes. */
    function CompleteReturn(today: int): (r: TxnRec)
      ensures r.returnDate == Some(today) && r.status == Completed
      ensures r.fineAmount == fineAmount
      ensures r.(returnDate := returnDate, status := status) == this
      ensures !r.IsOverdue(today) && r.DaysOverdue(today) == 0
    {
      this.(returnDate := Some(today), status := Completed).CalculateFine(today)
    }
  }

  /** `new SimpleTransaction(id, memberId, isbn, type)`: ACTIVE, no fine, and due in two
      weeks when it is a BORROW. */
  function NewTransaction(transactionId: string, memberId: string, bookIsbn: string,
                          txnType: TransactionType, today: int): (r: TxnRec)
    ensures r.transactionId == transactionId && r.memberId == memberId && r.bookIsbn == bookIsbn
    ensures r.txnType == txnType && r.status == Active && r.fineAmount == 0 && r.returnDate == None
    ensures r.dueDate == if txnType == Borrow then Some(today + LoanPeriodDays) else None
    ensures !r.IsOverdue(today)
  {
    TxnRec(transactionId, memberId, bookIsbn, txnType,
           if txnType == Borrow then Some(today + LoanPeriodDays) else None, None, 0, Active)
  }

  /** Once completed, a transaction is never overdue again, whatever the day. */
  lemma CompletedNeverOverdue(t: TxnRec, today: int, later: int)
    ensures !t.CompleteReturn(today).IsOverdue(later)
    ensures t.CompleteReturn(today).DaysOverdue(later) == 0
  {
  }

  /** A loan returned ten days late: the fine computed while it is still ACTIVE would be
      5.00, but `completeReturn`, which flips the status first, leaves the fine at 0. */
  lemma TenDaysLateReturnKeepsNoFine(id: string, memberId: string, isbn: string, day: int)
    ensures NewTransaction(id, memberId, isbn, Borrow, day).CalculateFine(day + LoanPeriodDays + 10).fineAmount == 500
    ensures NewTransaction(id, memberId, isbn, Borrow, day).CompleteReturn(day + LoanPeriodDays + 10).fineAmount == 0
  {
  }

  /** A transaction object. The id, the member and book it refers to, its type and due date
      are set by the constructor; return date, fine and status change in place. */
  class Transaction {
    const transactionId: string
    const memberId: string
    const bookIsbn: string
    const txnType: TransactionType
    const dueDate: Option<int>
    var returnDate: Option<int>
    var fineAmount: int
    var status: TransactionStatus

    /** The current field values. */
    function Rec(): TxnRec
      reads this
    {
      TxnRec(transactionId, memberId, bookIsbn, txnType, dueDate, returnDate, fineAmount, status)
    }

    constructor (transactionId: string, memberId: string, bookIsbn: string, txnType: TransactionType, today: int)
      ensures Rec() == NewTransaction(transactionId, memberId, bookIsbn, txnType, today)
    {
      this.transactionId := transactionId;
      this.memberId := memberId;
      this.bookIsbn := bookIsbn;
      this.txnType := txnType;
      this.status := Active;
      this.fineAmount := 0;
      this.returnDate := None;
      this.dueDate := if txnType == Borrow then Some(today + LoanPeriodDays) else None;
    }

    predicate IsOverdue(today: int)
      reads this
    {
      Rec().IsOverdue(today)
    }

    function GetDaysOverdue(today: int): int
      reads this
    {
      Rec().DaysOverdue(today)
    }

    method CalculateFine(today: int)
      modifies this
      ensures Rec() == old(Rec()).CalculateFine(today)
    {
      if IsOverdue(today) {
        var days := GetDaysOverdue(today);
        fineAmount := days * FinePerDayCents;
      }
    }

    method CompleteReturn(today: int)
      modifies this
      ensures Rec() == old(Rec()).CompleteReturn(today)
    {
      returnDate := Some(today);
      status := Completed;
      CalculateFine(today);
    }
  }
}
