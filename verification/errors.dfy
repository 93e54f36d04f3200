/** The errors the core reports. Those the core creates itself carry a fixed
    message; those it passes on from the HTTP client, the body reader or the
    JSON decoder carry whatever text that collaborator produced. */
module Errors {

  datatype Error =
    | SubjectEmpty                   // the catalog was asked for an empty subject
    | RequestInvalid(msg: string)    // the outbound request could not be built
    | TransportFailed(msg: string)   // the HTTP client returned an error
    | StatusNotOK                    // the catalog answered with a status other than 200
    | BodyUnreadable(msg: string)    // reading the response body failed
    | BodyUndecodable(msg: string)   // the body is not the expected JSON shape
    | BookNotFound                   // no book of the subject has the requested key
    | UserIDEmpty                    // a borrow was attempted for user ID 0

  /** The text of the error as the caller sees it. */
  function Message(e: Error): (m: string)
    ensures e.SubjectEmpty? ==> m == "Subject cannot be empty"
    ensures e.StatusNotOK? ==> m == "error external call"
    ensures e.BookNotFound? ==> m == "Book not found"
    ensures e.UserIDEmpty? ==> m == "User ID is empty"
    ensures (e.RequestInvalid? || e.TransportFailed? || e.BodyUnreadable? || e.BodyUndecodable?)
            ==> m == e.msg
  {
    match e
    case SubjectEmpty => "Subject cannot be empty"
    case RequestInvalid(msg) => msg
    case TransportFailed(msg) => msg
    case StatusNotOK => "error external call"
    case BodyUnreadable(msg) => msg
    case BodyUndecodable(msg) => msg
    case BookNotFound => "Book not found"
    case UserIDEmpty => "User ID is empty"
  }

  /** An error the core creates itself, as opposed to one it passes on. */
  predicate Fixed(e: Error)
  {
    e.SubjectEmpty? || e.StatusNotOK? || e.BookNotFound? || e.UserIDEmpty?
  }

  /** The errors the core creates itself can be told apart by their text. */
  lemma FixedMessagesDistinct(e1: Error, e2: Error)
    requires Fixed(e1) && Fixed(e2)
    requires Message(e1) == Message(e2)
    ensures e1 == e2
  {
  }
}
