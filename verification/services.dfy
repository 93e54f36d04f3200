/** The service layer: reshapes the resource's records into the caller-facing
    ones and orchestrates lookup-then-store for a borrow. Its operations answer
    like Go functions, with a value and an error at once: on an error the
    value is the type's zero value. */
module Services {
  import opened Wrappers
  import opened Errors
  import Domain
  import Persistent
  import Facade

  datatype Author = Author(name: string)

  datatype Book = Book(
    key: string,
    title: string,
    editionCount: int,
    authors: seq<Author>,
    lendingIdentifier: string)

  datatype GetListOfBooksReq = GetListOfBooksReq(subject: string)

  datatype GetListOfBooksResp = GetListOfBooksResp(books: seq<Book>)

  datatype BorrowBookReq = BorrowBookReq(
    bookKey: string,
    pickUpDate: string,
    subject: string,
    userID: int)

  datatype BorrowBookRes = BorrowBookRes(book: Book, pickUpDate: string, userID: int)

  datatype GetBookReservationReq = GetBookReservationReq(userID: int)

  datatype GetBookReservationRes = GetBookReservationRes(
    bookKey: string,
    pickUpDate: string,
    userID: int)

  type ReservationView = map<int, seq<GetBookReservationRes>>

  /** A value and an error, as a Go function returns them. */
  datatype Reply<+T> = Reply(value: T, err: Option<Error>)

  /** The store after a service-level borrow, and the borrow's reply. */
  datatype Borrowed = Borrowed(books: Persistent.Reservations, reply: Reply<BorrowBookRes>)

  const ZeroBook: Book := Book("", "", 0, [], "")

  const ZeroBorrowBookRes: BorrowBookRes := BorrowBookRes(ZeroBook, "", 0)

  // ---------------------------------------------------------------------------
  // Conversions

  function ConvertAuthors(authors: seq<Domain.Author>): (r: seq<Author>)
    ensures |r| == |authors|
    ensures forall i | 0 <= i < |r| :: r[i].name == authors[i].name
  {
    if authors == [] then []
    else [Author(authors[0].name)] + ConvertAuthors(authors[1..])
  }

  function ConvertBook(b: Domain.Book): (r: Book)
    ensures r.key == b.key && r.title == b.title && r.editionCount == b.editionCount
    ensures r.lendingIdentifier == b.lendingIdentifier
    ensures |r.authors| == |b.authors|
    ensures forall i | 0 <= i < |r.authors| :: r.authors[i].name == b.authors[i].name
  {
    Book(b.key, b.title, b.editionCount, ConvertAuthors(b.authors), b.lendingIdentifier)
  }

  function ConvertBooks(books: seq<Domain.Book>): (r: seq<Book>)
    ensures |r| == |books|
    ensures forall i | 0 <= i < |r| :: r[i] == ConvertBook(books[i])
  {
    if books == [] then []
    else [ConvertBook(books[0])] + ConvertBooks(books[1..])
  }

  /** The caller-facing view of one reservation: only the book's key is kept. */
  function ProjectReservation(item: Domain.BorrowBookReq): (r: GetBookReservationRes)
    ensures r.bookKey == item.book.key
    ensures r.pickUpDate == item.pickUpDate && r.userID == item.userID
  {
    GetBookReservationRes(item.book.key, item.pickUpDate, item.userID)
  }

  function ProjectReservations(items: seq<Domain.BorrowBookReq>): (r: seq<GetBookReservationRes>)
    ensures |r| == |items|
    ensures forall i | 0 <= i < |r| :: r[i] == ProjectReservation(items[i])
  {
    if items == [] then []
    else [ProjectReservation(items[0])] + ProjectReservations(items[1..])
  }

  function ProjectStore(books: Persistent.Reservations): (r: ReservationView)
    ensures r.Keys == books.Keys
    ensures forall u | u in r :: r[u] == ProjectReservations(books[u])
  {
    map u | u in books :: ProjectReservations(books[u])
  }

  // ---------------------------------------------------------------------------
  // Inverses of the conversions: nothing the caller is shown is lost

  function ToDomainAuthors(authors: seq<Author>): (r: seq<Domain.Author>)
    ensures |r| == |authors|
    ensures forall i | 0 <= i < |r| :: r[i].name == authors[i].name
  {
    if authors == [] then []
    else [Domain.Author(authors[0].name)] + ToDomainAuthors(authors[1..])
  }

  function ToDomainBook(b: Book): Domain.Book
  {
    Domain.Book(b.key, b.title, b.editionCount, ToDomainAuthors(b.authors), b.lendingIdentifier)
  }

  function ToDomainBooks(books: seq<Book>): (r: seq<Domain.Book>)
    ensures |r| == |books|
    ensures forall i | 0 <= i < |r| :: r[i] == ToDomainBook(books[i])
  {
    if books == [] then []
    else [ToDomainBook(books[0])] + ToDomainBooks(books[1..])
  }

  // ---------------------------------------------------------------------------
  // Operations

  /** The subject's books in caller-facing shape, one for one and in order. */
  function GetListOfBooks(res: Facade.Resource, req: GetListOfBooksReq)
    : (r: Reply<GetListOfBooksResp>)
    ensures var list := Facade.GetListOfBooks(res, Domain.GetListOfBooksReq(req.subject));
            list.Failure? ==> r == Reply(GetListOfBooksResp([]), Some(list.error))
    ensures var list := Facade.GetListOfBooks(res, Domain.GetListOfBooksReq(req.subject));
            list.Success? ==>
              && r.err.None?
              && |r.value.books| == |list.value.books|
              && forall i | 0 <= i < |r.value.books| :: r.value.books[i] == ConvertBook(list.value.books[i])
  {
    match Facade.GetListOfBooks(res, Domain.GetListOfBooksReq(req.subject))
    case Failure(e) => Reply(GetListOfBooksResp([]), Some(e))
    case Success(resp) => Reply(GetListOfBooksResp(ConvertBooks(resp.books)), None)
  }

  /** Resolves the book, then records the reservation; either failure aborts
      with the store as it was. */
  function BorrowBook(res: Facade.Resource, req: BorrowBookReq): (r: Borrowed)
    ensures var found := Facade.GetBookByKey(res, Domain.BookByKeyReq(req.bookKey, req.subject));
            found.Failure? ==>
              r.reply == Reply(ZeroBorrowBookRes, Some(found.error)) && r.books == res.books
    ensures var found := Facade.GetBookByKey(res, Domain.BookByKeyReq(req.bookKey, req.subject));
            found.Success? && req.userID == 0 ==>
              r.reply == Reply(ZeroBorrowBookRes, Some(UserIDEmpty)) && r.books == res.books
    ensures var found := Facade.GetBookByKey(res, Domain.BookByKeyReq(req.bookKey, req.subject));
            found.Success? && req.userID != 0 ==>
              && r.reply.err.None?
              && r.reply.value == BorrowBookRes(ConvertBook(found.value), req.pickUpDate, req.userID)
              && r.books == Persistent.BorrowBook(
                              res.books,
                              Domain.BorrowBookReq(found.value, req.pickUpDate, req.userID)).books
  {
    match Facade.GetBookByKey(res, Domain.BookByKeyReq(req.bookKey, req.subject))
    case Failure(e) => Borrowed(res.books, Reply(ZeroBorrowBookRes, Some(e)))
    case Success(book) =>
      var stored := Facade.BorrowBook(res, Domain.BorrowBookReq(book, req.pickUpDate, req.userID));
      match stored.outcome
      case Fail(e) => Borrowed(stored.books, Reply(ZeroBorrowBookRes, Some(e)))
      case Pass => Borrowed(stored.books, Reply(BorrowBookRes(ConvertBook(book), req.pickUpDate, req.userID), None))
  }

  /** What the service makes of the resource's answer to a reservation
      query: each reservation reduced to key, pickup date and user, under the
      same users; or the resource's error with an empty map. */
  function ReservationReply(got: Result<Persistent.Reservations, Error>): (r: Reply<ReservationView>)
    ensures got.Failure? ==> r == Reply(map[], Some(got.error))
    ensures got.Success? ==>
              && r.err.None?
              && r.value.Keys == got.value.Keys
              && forall u | u in r.value :: r.value[u] == ProjectReservations(got.value[u])
  {
    match got
    case Failure(e) => Reply(map[], Some(e))
    case Success(books) => Reply(ProjectStore(books), None)
  }

  /** The reservations of one user, or of every user for user ID 0, in the
      caller's shape. */
  function GetBookReservation(res: Facade.Resource, req: GetBookReservationReq)
    : (r: Reply<ReservationView>)
    ensures r.err.None?
    ensures req.userID == 0 ==> r.value.Keys == res.books.Keys
    ensures req.userID != 0 ==> r.value.Keys == {req.userID}
    ensures forall u | u in r.value ::
              r.value[u] == ProjectReservations(Persistent.Entries(res.books, u))
  {
    ReservationReply(Facade.GetBookReservation(res, Domain.GetBookReservationReq(req.userID)))
  }

  // ---------------------------------------------------------------------------
  // Properties

  lemma AuthorsRoundTrip(authors: seq<Domain.Author>)
    ensures ToDomainAuthors(ConvertAuthors(authors)) == authors
  {
  }

  /** Converting a book to the caller's shape and back gives the same book. */
  lemma BookRoundTrip(b: Domain.Book)
    ensures ToDomainBook(ConvertBook(b)) == b
  {
  }

  /** The caller's list converts back to exactly the catalog's list. */
  lemma ListLosesNothing(res: Facade.Resource, req: GetListOfBooksReq)
    requires GetListOfBooks(res, req).err.None?
    ensures ToDomainBooks(GetListOfBooks(res, req).value.books)
         == Facade.GetListOfBooks(res, Domain.GetListOfBooksReq(req.subject)).value.books
  {
    var books := Facade.GetListOfBooks(res, Domain.GetListOfBooksReq(req.subject)).value.books;
    var back := ToDomainBooks(GetListOfBooks(res, req).value.books);
    forall i | 0 <= i < |books| ensures back[i] == books[i] {
      BookRoundTrip(books[i]);
    }
  }

  /** Projection distributes over appending one reservation. */
  lemma ProjectAppend(items: seq<Domain.BorrowBookReq>, item: Domain.BorrowBookReq)
    ensures ProjectReservations(items + [item])
         == ProjectReservations(items) + [ProjectReservation(item)]
  {
  }

  /** A borrow succeeds exactly when the book is found and the user ID is not 0. */
  lemma BorrowSucceedsIff(res: Facade.Resource, req: BorrowBookReq)
    ensures BorrowBook(res, req).reply.err.None?
        <==> && req.userID != 0
             && Facade.GetBookByKey(res, Domain.BookByKeyReq(req.bookKey, req.subject)).Success?
  {
  }

  /** After a successful borrow, the user's reservations end with one for the
      requested key and pickup date; the earlier ones are unchanged. */
  lemma BorrowThenGetReservation(res: Facade.Resource, req: BorrowBookReq)
    requires BorrowBook(res, req).reply.err.None?
    ensures var after := res.(books := BorrowBook(res, req).books);
            var view := GetBookReservation(after, GetBookReservationReq(req.userID));
            && view.err.None?
            && view.value.Keys == {req.userID}
            && view.value[req.userID]
               == ProjectReservations(Persistent.Entries(res.books, req.userID))
                  + [GetBookReservationRes(req.bookKey, req.pickUpDate, req.userID)]
  {
  }
}
