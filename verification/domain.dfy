/** The records the resource layer exchanges with the catalog and the store.
    Go's `int` is 64 bits wide; no operation of the core does arithmetic on a
    user ID or an edition count, so they are unbounded integers here. */
module Domain {

  datatype Author = Author(name: string)

  /** One work of the catalog, as decoded from the upstream "works" array. */
  datatype Book = Book(
    key: string,
    title: string,
    editionCount: int,
    authors: seq<Author>,
    lendingIdentifier: string)

  datatype GetListOfBooksReq = GetListOfBooksReq(subject: string)

  /** The decoded upstream payload: its "works" array, in order. */
  datatype GetListOfBooksResp = GetListOfBooksResp(books: seq<Book>)

  /** A reservation: the resolved book, the caller's pickup date, the user. */
  datatype BorrowBookReq = BorrowBookReq(book: Book, pickUpDate: string, userID: int)

  /** A request for one book of a subject (`GeBookByKeyReq` in the source). */
  datatype BookByKeyReq = BookByKeyReq(key: string, subject: string)

  /** User ID 0 stands for "every user". */
  datatype GetBookReservationReq = GetBookReservationReq(userID: int)
}
