/** The catalog client: fetches one subject's works from the upstream catalog
    and looks a book up by key among them. The HTTP exchange and the JSON
    decoding are not modelled; their outcome for a URL is an oracle, `fetch`. */
module External {
  import opened Wrappers
  import opened Errors
  import opened Domain

  /** What reading and decoding the response body produced. */
  datatype Body =
    | Unreadable(msg: string)
    | Undecodable(msg: string)
    | Decoded(resp: GetListOfBooksResp)

  datatype HttpResponse = HttpResponse(statusCode: int, body: Body)

  /** What one GET of a URL produced: the request was refused before it was
      sent, the transport failed, or a response came back. */
  datatype Exchange =
    | RequestRejected(msg: string)
    | TransportFailure(msg: string)
    | Responded(response: HttpResponse)

  /** The configured catalog address and the HTTP oracle. */
  datatype ExternalModule = ExternalModule(address: string, fetch: string -> Exchange)

  const PathGetListOfBooks: string := "/subjects"

  /** The catalog URL of a subject: address, "/subjects/", subject, ".json". */
  function SubjectURL(address: string, subject: string): (url: string)
    ensures |url| == |address| + |subject| + 15
    ensures url[..|address|] == address
    ensures url[|address|..|address| + 10] == "/subjects/"
    ensures url[|address| + 10..|url| - 5] == subject
    ensures url[|url| - 5..] == ".json"
  {
    address + PathGetListOfBooks + "/" + subject + ".json"
  }

  /** The works of a subject, or the first failure in the order the checks are made. */
  function GetListOfBooks(m: ExternalModule, req: GetListOfBooksReq)
    : (r: Result<GetListOfBooksResp, Error>)
    ensures req.subject == "" ==> r == Failure(SubjectEmpty)
    ensures req.subject != "" ==>
              var x := m.fetch(SubjectURL(m.address, req.subject));
              && (x.RequestRejected? ==> r == Failure(RequestInvalid(x.msg)))
              && (x.TransportFailure? ==> r == Failure(TransportFailed(x.msg)))
              && (x.Responded? && x.response.statusCode != 200 ==> r == Failure(StatusNotOK))
              && (x.Responded? && x.response.statusCode == 200 ==>
                    match x.response.body
                    case Unreadable(msg) => r == Failure(BodyUnreadable(msg))
                    case Undecodable(msg) => r == Failure(BodyUndecodable(msg))
                    case Decoded(resp) => r == Success(resp))
  {
    if req.subject == "" then Failure(SubjectEmpty)
    else
      match m.fetch(SubjectURL(m.address, req.subject))
      case RequestRejected(msg) => Failure(RequestInvalid(msg))
      case TransportFailure(msg) => Failure(TransportFailed(msg))
      case Responded(response) =>
        if response.statusCode != 200 then Failure(StatusNotOK)
        else
          match response.body
          case Unreadable(msg) => Failure(BodyUnreadable(msg))
          case Undecodable(msg) => Failure(BodyUndecodable(msg))
          case Decoded(resp) => Success(resp)
  }

  /** The position of the first book whose key is `key`, if any. */
  function FirstWithKey(books: seq<Book>, key: string): (r: Option<nat>)
    ensures r.Some? ==> r.value < |books| && books[r.value].key == key
    ensures r.Some? ==> forall j | 0 <= j < r.value :: books[j].key != key
    ensures r.None? ==> forall j | 0 <= j < |books| :: books[j].key != key
  {
    if books == [] then None
    else if books[0].key == key then Some(0)
    else match FirstWithKey(books[1..], key)
      case None => None
      case Some(i) => Some(i + 1)
  }

  /** The first book of the subject with the requested key. */
  function GetBookByKey(m: ExternalModule, req: BookByKeyReq): (r: Result<Book, Error>)
    ensures var list := GetListOfBooks(m, GetListOfBooksReq(req.subject));
            list.Failure? ==> r == Failure(list.error)
    ensures var list := GetListOfBooks(m, GetListOfBooksReq(req.subject));
            list.Success? ==>
              (r.Success? <==> exists i | 0 <= i < |list.value.books| :: list.value.books[i].key == req.key)
    ensures var list := GetListOfBooks(m, GetListOfBooksReq(req.subject));
            list.Success? && r.Failure? ==> r.error == BookNotFound
    ensures var list := GetListOfBooks(m, GetListOfBooksReq(req.subject));
            r.Success? ==>
              && list.Success?
              && r.value.key == req.key
              && exists i | 0 <= i < |list.value.books| ::
                   && list.value.books[i] == r.value
                   && forall j | 0 <= j < i :: list.value.books[j].key != req.key
  {
    match GetListOfBooks(m, GetListOfBooksReq(req.subject))
    case Failure(e) => Failure(e)
    case Success(resp) =>
      match FirstWithKey(resp.books, req.key)
      case None => Failure(BookNotFound)
      case Some(i) => Success(resp.books[i])
  }

  /** The subject can be read back from its URL, so different subjects are
      fetched from different URLs. */
  lemma SubjectURLInjective(address: string, s1: string, s2: string)
    requires SubjectURL(address, s1) == SubjectURL(address, s2)
    ensures s1 == s2
  {
  }

  /** An empty subject is refused without consulting the HTTP client: the
      result is the same whatever the client would have answered. */
  lemma EmptySubjectMakesNoCall(m1: ExternalModule, m2: ExternalModule, req: GetListOfBooksReq)
    requires req.subject == ""
    ensures GetListOfBooks(m1, req) == GetListOfBooks(m2, req) == Failure(SubjectEmpty)
  {
  }

  /** The only URL whose outcome matters is the subject's URL. */
  lemma OnlySubjectURLConsulted(m1: ExternalModule, m2: ExternalModule, req: GetListOfBooksReq)
    requires m1.address == m2.address
    requires m1.fetch(SubjectURL(m1.address, req.subject))
          == m2.fetch(SubjectURL(m2.address, req.subject))
    ensures GetListOfBooks(m1, req) == GetListOfBooks(m2, req)
  {
  }

  /** The list succeeds exactly when the subject is non-empty and its URL
      answered 200 with a decodable body; the result is then that body. */
  lemma GetListOfBooksSucceedsIff(m: ExternalModule, req: GetListOfBooksReq)
    ensures GetListOfBooks(m, req).Success?
        <==> && req.subject != ""
             && var x := m.fetch(SubjectURL(m.address, req.subject));
                x.Responded? && x.response.statusCode == 200 && x.response.body.Decoded?
    ensures GetListOfBooks(m, req).Success? ==>
              GetListOfBooks(m, req).value
              == m.fetch(SubjectURL(m.address, req.subject)).response.body.resp
  {
  }

  /** If the book at position `i` has the requested key, the lookup succeeds
      and returns a book from position `i` or earlier. */
  lemma GetBookByKeyNoLaterThan(m: ExternalModule, req: BookByKeyReq, i: nat)
    requires GetListOfBooks(m, GetListOfBooksReq(req.subject)).Success?
    requires i < |GetListOfBooks(m, GetListOfBooksReq(req.subject)).value.books|
    requires GetListOfBooks(m, GetListOfBooksReq(req.subject)).value.books[i].key == req.key
    ensures GetBookByKey(m, req).Success?
    ensures exists k | 0 <= k <= i ::
              GetListOfBooks(m, GetListOfBooksReq(req.subject)).value.books[k]
              == GetBookByKey(m, req).value
  {
  }
}
