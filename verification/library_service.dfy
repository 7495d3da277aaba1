/** Bulk book creation (backend/src/modules/library/library.service.js):
    after the copies guard, one `AVAILABLE` book is built per generated
    identifier, carrying the payload's metadata. The insert itself
    (`insertMany`) is persistence and is not modelled: the result is the
    list of books handed to it. */
module LibraryService {
  import opened Results
  import opened Books
  import opened Accession

  /** The request body; `copies` may be left undefined. */
  datatype BulkPayload = BulkPayload(
    title: string,
    author: string,
    isbn: string,
    category: string,
    publisher: string,
    publishedYear: int,
    copies: Option<int>)

  datatype BulkError = NonPositiveCopies  // "Copies must be greater than zero"

  function BookFor(p: BulkPayload, id: Identifier): Book {
    Book(p.title, p.author, p.isbn, id.bookNumber, id.accessionNumber,
         p.category, p.publisher, p.publishedYear, AVAILABLE)
  }

  /** `addBooksInBulk`. `copies <= 0` is false for an undefined `copies`,
      which then yields an empty `Array.from`, hence no book and no error. */
  function AddBooksInBulk(p: BulkPayload, year: int, last: Option<string>): (r: Result<seq<Book>, BulkError>)
    ensures r.Err? <==> p.copies.Some? && p.copies.value <= 0
    ensures p.copies.None? ==> r == Ok([])
    ensures r.Ok? && p.copies.Some? ==> |r.value| == p.copies.value
    ensures r.Ok? ==>
      var ids := GenerateAccessionNumbers(if p.copies.Some? then p.copies.value else 0, p.category, year, last);
      && |r.value| == |ids|
      && forall i | 0 <= i < |r.value| ::
           var b := r.value[i];
           && b.status == AVAILABLE
           && b.title == p.title && b.author == p.author && b.isbn == p.isbn
           && b.category == p.category && b.publisher == p.publisher
           && b.publishedYear == p.publishedYear
           && b.accessionNumber == ids[i].accessionNumber && b.bookNumber == ids[i].bookNumber
  {
    if p.copies.Some? && p.copies.value <= 0 then Err(NonPositiveCopies)
    else
      var ids := GenerateAccessionNumbers(if p.copies.Some? then p.copies.value else 0, p.category, year, last);
      Ok(seq(|ids|, i requires 0 <= i < |ids| => BookFor(p, ids[i])))
  }

  /** The books of one call have pairwise distinct accession and book numbers
      whenever the previous number of the category reads as a number. */
  lemma BulkBooksDistinct(p: BulkPayload, year: int, last: Option<string>, i: nat, j: nat)
    requires StartNumber(last).Int?
    requires AddBooksInBulk(p, year, last).Ok?
    requires i < j < |AddBooksInBulk(p, year, last).value|
    ensures var books := AddBooksInBulk(p, year, last).value;
      books[i].accessionNumber != books[j].accessionNumber && books[i].bookNumber != books[j].bookNumber
  {
    var n := if p.copies.Some? then p.copies.value else 0;
    GeneratedIdentifiersDistinct(n, p.category, year, last, i, j);
  }
}
