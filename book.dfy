/** A catalogue entry and its copy accounting (SimpleBook.java). */
module Books {
  import opened Wrappers
  import opened BookStatuses
  import opened BookCategories

  /** The lending-relevant state of a book, as a value. */
  datatype BookRec = BookRec(
    isbn: string,
    title: string,
    author: string,
    category: BookCategory,
    publisher: Option<string>,
    yearPublished: Option<int>,
    totalCopies: int,
    availableCopies: int,
    status: BookStatus)
  {
    /** `isAvailable`: the status allows lending and a copy is on the shelf. */
    predicate IsAvailable()
    {
      status == Available && availableCopies > 0
    }

    /** The copy count lies between 0 and the number of copies owned. */
    predicate InBounds()
    {
      0 <= availableCopies <= totalCopies
    }

    /** The status follows the copy count: AVAILABLE while a copy is left, BORROWED otherwise. */
    predicate InStep()
    {
      status == (if availableCopies > 0 then Available else Borrowed)
    }

    predicate Valid()
    {
      InBounds() && InStep()
    }

    /** `borrowCopy`: on an available book take one copy, and mark the book BORROWED when
        the last one goes; on any other book do nothing. */
    function BorrowCopy(): (r: BookRec)
      ensures r.(availableCopies := availableCopies, status := status) == this
      ensures IsAvailable() ==> r.availableCopies == availableCopies - 1
      ensures IsAvailable() ==> (r.status == Borrowed <==> r.availableCopies == 0)
      ensures IsAvailable() && r.availableCopies > 0 ==> r.status == status
      ensures !IsAvailable() ==> r == this
      ensures InBounds() ==> r.InBounds()
      ensures Valid() ==> r.Valid()
    {
      if IsAvailable() then
        var left := availableCopies - 1;
        this.(availableCopies := left, status := if left == 0 then Borrowed else status)
      else
        this
    }

    /** `returnCopy`: while some copy is out, put one back and mark the book AVAILABLE;
        otherwise do nothing. */
    function ReturnCopy(): (r: BookRec)
      ensures r.(availableCopies := availableCopies, status := status) == this
      ensures availableCopies < totalCopies ==> r.availableCopies == availableCopies + 1 && r.status == Available
      ensures availableCopies >= totalCopies ==> r == this
      ensures InBounds() ==> r.InBounds()
      ensures Valid() ==> r.Valid()
    {
      if availableCopies < totalCopies then
        this.(availableCopies := availableCopies + 1, status := Available)
      else
        this
    }
  }

  /** `new SimpleBook(isbn, title, author, category)`: one copy, on the shelf. */
  function NewBook(isbn: string, title: string, author: string, category: BookCategory): (r: BookRec)
    ensures r.isbn == isbn && r.title == title && r.author == author && r.category == category
    ensures r.totalCopies == 1 && r.availableCopies == 1 && r.status == Available
    ensures r.publisher == None && r.yearPublished == None
    ensures r.Valid() && r.IsAvailable()
  {
    BookRec(isbn, title, author, category, None, None, 1, 1, Available)
  }

  /** Borrowing a copy of an available book and returning it restores the book exactly. */
  lemma BorrowThenReturnRestores(b: BookRec)
    requires b.InBounds() && b.IsAvailable()
    ensures b.BorrowCopy().ReturnCopy() == b
  {
  }

  /** With the status in step, a book is available exactly when a copy is on the shelf. */
  lemma AvailableIffCopyLeft(b: BookRec)
    requires b.Valid()
    ensures b.IsAvailable() <==> b.availableCopies > 0
  {
  }

  /** A book object. The ISBN, category and number of copies are fixed when it is created
      (the application never calls their setters); title, author, publisher, year,
      available copies and status are updated in place. */
  class Book {
    const isbn: string
    var title: string
    var author: string
    const category: BookCategory
    var publisher: Option<string>
    var yearPublished: Option<int>
    const totalCopies: int
    var availableCopies: int
    var status: BookStatus

    /** The current field values. */
    function Rec(): BookRec
      reads this
    {
      BookRec(isbn, title, author, category, publisher, yearPublished, totalCopies, availableCopies, status)
    }

    constructor (isbn: string, title: string, author: string, category: BookCategory)
      ensures Rec() == NewBook(isbn, title, author, category)
    {
      this.isbn := isbn;
      this.title := title;
      this.author := author;
      this.category := category;
      this.publisher := None;
      this.yearPublished := None;
      this.totalCopies := 1;
      this.availableCopies := 1;
      this.status := Available;
    }

    predicate IsAvailable()
      reads this
    {
      Rec().IsAvailable()
    }

    method BorrowCopy()
      modifies this
      ensures Rec() == old(Rec()).BorrowCopy()
    {
      if IsAvailable() {
        availableCopies := availableCopies - 1;
        if availableCopies == 0 {
          status := Borrowed;
        }
      }
    }

    method ReturnCopy()
      modifies this
      ensures Rec() == old(Rec()).ReturnCopy()
    {
      if availableCopies < totalCopies {
        availableCopies := availableCopies + 1;
        status := Available;
      }
    }

    method SetTitle(title: string)
      modifies this
      ensures Rec() == old(Rec()).(title := title)
    {
      this.title := title;
    }

    method SetAuthor(author: string)
      modifies this
      ensures Rec() == old(Rec()).(author := author)
    {
      this.author := author;
    }

    method SetPublisher(publisher: string)
      modifies this
      ensures Rec() == old(Rec()).(publisher := Some(publisher))
    {
      this.publisher := Some(publisher);
    }

    method SetYearPublished(year: int)
      modifies this
      ensures Rec() == old(Rec()).(yearPublished := Some(year))
    {
      this.yearPublished := Some(year);
    }

    /** `equals`: two books are the same book when their ISBNs agree. */
    predicate Equals(other: Book?)
    {
      other != null && isbn == other.isbn
    }
  }

  /** Book equality looks at nothing but the ISBN, and is reflexive and symmetric. */
  lemma EqualsOnlyByIsbn(a: Book, b: Book)
    ensures a.Equals(b) <==> a.isbn == b.isbn
    ensures a.Equals(b) == b.Equals(a)
    ensures a.Equals(a)
  {
  }
}
