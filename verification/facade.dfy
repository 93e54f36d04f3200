/** The resource the service layer calls: the catalog client and the
    reservation store behind one interface, each call routed unchanged. */
module Facade {
  import opened Wrappers
  import opened Errors
  import opened Domain
  import External
  import Persistent

  /** The catalog client and the current state of the reservation store. */
  datatype Resource = Resource(external: External.ExternalModule, books: Persistent.Reservations)

  function GetListOfBooks(res: Resource, req: GetListOfBooksReq)
    : (r: Result<GetListOfBooksResp, Error>)
    ensures r == External.GetListOfBooks(res.external, req)
    ensures req.subject == "" ==> r == Failure(SubjectEmpty)
  {
    External.GetListOfBooks(res.external, req)
  }

  /** The store's borrow: refused for user 0 with the store untouched,
      otherwise appended under the user. */
  function BorrowBook(res: Resource, req: BorrowBookReq): (r: Persistent.Effect)
    ensures r == Persistent.BorrowBook(res.books, req)
    ensures r.outcome.Fail? <==> req.userID == 0
    ensures r.outcome.Fail? ==> r.books == res.books
    ensures r.outcome.Pass? ==>
              Persistent.Entries(r.books, req.userID) == Persistent.Entries(res.books, req.userID) + [req]
  {
    Persistent.BorrowBook(res.books, req)
  }

  function GetBookByKey(res: Resource, req: BookByKeyReq): (r: Result<Book, Error>)
    ensures r == External.GetBookByKey(res.external, req)
    ensures r.Success? ==> r.value.key == req.key
  {
    External.GetBookByKey(res.external, req)
  }

  function GetBookReservation(res: Resource, req: GetBookReservationReq)
    : (r: Result<Persistent.Reservations, Error>)
    ensures r == Persistent.GetBookReservation(res.books, req)
    ensures r.Success?
  {
    Persistent.GetBookReservation(res.books, req)
  }
}
