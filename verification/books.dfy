/** Books and loans as the library schemas declare them
    (backend/src/modules/library/book.model.js,
    backend/src/modules/library/issue.model.js). */
module Books {
  import opened Results

  /** A book's status domain; a new book defaults to `AVAILABLE`. */
  datatype BookStatus = AVAILABLE | ISSUED | LOST | DAMAGED

  datatype Book = Book(
    title: string,
    author: string,
    isbn: string,
    bookNumber: string,
    accessionNumber: string,
    category: string,
    publisher: string,
    publishedYear: int,
    status: BookStatus)

  /** A loan's status domain; a new loan defaults to `ISSUED`. */
  datatype IssueStatus = ISSUED | RETURNED | OVERDUE

  type BookRef = nat

  datatype Issue = Issue(
    issueNumber: int,
    book: BookRef,
    user: UserId,
    issuedAt: int,
    dueAt: int,
    returnedAt: Option<int>,
    status: IssueStatus,
    fineAmount: int)

  /** The two library collections; an issue refers to a book by position. */
  datatype LibraryDb = LibraryDb(books: seq<Book>, issues: seq<Issue>)
}
