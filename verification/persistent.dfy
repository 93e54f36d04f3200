/** The in-memory reservation store: user ID to that user's reservations in
    insertion order. The source keeps it in one process-wide map; here the map
    is a value that each operation takes and, for a borrow, returns updated. */
module Persistent {
  import opened Wrappers
  import opened Errors
  import opened Domain

  type Reservations = map<int, seq<BorrowBookReq>>

  /** The store when the process starts. */
  const Empty: Reservations := map[]

  /** Reading a user's entry: absent users read as the empty sequence. */
  function Entries(books: Reservations, userID: int): seq<BorrowBookReq>
  {
    if userID in books then books[userID] else []
  }

  /** The store after an operation, and the error the operation reported. */
  datatype Effect = Effect(books: Reservations, outcome: Outcome<Error>)

  /** Every reservation of `rs` belongs to `userID`, and there is one at least. */
  ghost predicate OwnedBy(rs: seq<BorrowBookReq>, userID: int)
  {
    |rs| > 0 && forall i | 0 <= i < |rs| :: rs[i].userID == userID
  }

  /** What every store reachable by borrows satisfies: no entry for user 0,
      no empty entry, and each entry filed under its own user. */
  ghost predicate Valid(books: Reservations)
  {
    0 !in books && forall u | u in books :: OwnedBy(books[u], u)
  }

  /** Records a reservation under its user; user ID 0 (and only 0) is refused. */
  function BorrowBook(books: Reservations, req: BorrowBookReq): (r: Effect)
    ensures r.outcome.Fail? <==> req.userID == 0
    ensures r.outcome.Fail? ==> r.outcome.error == UserIDEmpty && r.books == books
    ensures r.outcome.Pass? ==> r.books.Keys == books.Keys + {req.userID}
    ensures r.outcome.Pass? ==> r.books[req.userID] == Entries(books, req.userID) + [req]
    ensures r.outcome.Pass? ==>
              forall u | u in books && u != req.userID :: r.books[u] == books[u]
  {
    if req.userID == 0 then Effect(books, Fail(UserIDEmpty))
    else Effect(books[req.userID := Entries(books, req.userID) + [req]], Pass)
  }

  /** Every reservation (user ID 0), or a one-entry map for the given user. */
  function GetBookReservation(books: Reservations, req: GetBookReservationReq)
    : (r: Result<Reservations, Error>)
    ensures r.Success?
    ensures req.userID == 0 ==> r.value == books
    ensures req.userID != 0 ==> r.value.Keys == {req.userID}
    ensures req.userID != 0 ==> r.value[req.userID] == Entries(books, req.userID)
  {
    if req.userID == 0 then Success(books)
    else Success(map[req.userID := Entries(books, req.userID)])
  }

  /** The store after a run of borrow calls, refused ones included. */
  function BorrowAll(books: Reservations, reqs: seq<BorrowBookReq>): Reservations
    decreases |reqs|
  {
    if reqs == [] then books
    else BorrowAll(BorrowBook(books, reqs[0]).books, reqs[1..])
  }

  /** The requests of `reqs` made for `userID`, in order. */
  function ForUser(reqs: seq<BorrowBookReq>, userID: int): seq<BorrowBookReq>
  {
    if reqs == [] then []
    else (if reqs[0].userID == userID then [reqs[0]] else []) + ForUser(reqs[1..], userID)
  }

  /** A borrow keeps the store valid. */
  lemma BorrowPreservesValid(books: Reservations, req: BorrowBookReq)
    requires Valid(books)
    ensures Valid(BorrowBook(books, req).books)
  {
  }

  /** The store the process starts with is valid. */
  lemma EmptyIsValid()
    ensures Valid(Empty)
  {
  }

  /** Every store reachable from the empty one by borrows is valid. */
  lemma {:induction false} ReachableValid(reqs: seq<BorrowBookReq>)
    ensures Valid(BorrowAll(Empty, reqs))
  {
    EmptyIsValid();
    ValidAfterBorrows(Empty, reqs);
  }

  /** A run of borrows keeps a valid store valid. */
  lemma {:induction false} ValidAfterBorrows(books: Reservations, reqs: seq<BorrowBookReq>)
    requires Valid(books)
    ensures Valid(BorrowAll(books, reqs))
    decreases |reqs|
  {
    if reqs != [] {
      BorrowPreservesValid(books, reqs[0]);
      ValidAfterBorrows(BorrowBook(books, reqs[0]).books, reqs[1..]);
    }
  }

  /** Asking for every user never shows a user who has no reservation. */
  lemma AllUsersHaveReservations(books: Reservations)
    requires Valid(books)
    ensures var all := GetBookReservation(books, GetBookReservationReq(0)).value;
            0 !in all && forall u | u in all :: |all[u]| > 0
  {
  }

  /** Two borrows by the same user are both kept, in call order, even when
      they are the same request. */
  lemma BorrowTwiceKeepsBoth(books: Reservations, r1: BorrowBookReq, r2: BorrowBookReq)
    requires r1.userID == r2.userID != 0
    ensures var after := BorrowBook(BorrowBook(books, r1).books, r2).books;
            Entries(after, r1.userID) == Entries(books, r1.userID) + [r1, r2]
  {
  }

  /** A borrow followed by a lookup of that user shows the old entry extended
      by the new reservation, and nothing else. */
  lemma BorrowThenLookup(books: Reservations, req: BorrowBookReq)
    requires req.userID != 0
    ensures var view := GetBookReservation(BorrowBook(books, req).books,
                                           GetBookReservationReq(req.userID)).value;
            view == map[req.userID := Entries(books, req.userID) + [req]]
  {
  }

  /** One borrow adds the request to its own user's entry and to no other. */
  lemma BorrowEntries(books: Reservations, req: BorrowBookReq, userID: int)
    ensures Entries(BorrowBook(books, req).books, userID)
         == Entries(books, userID) + (if userID != 0 && req.userID == userID then [req] else [])
  {
  }

  /** Replaying borrows from any store: each user other than 0 gains exactly
      the requests made for them, in call order; user 0 gains nothing. */
  lemma {:induction false} BorrowAllAppendsPerUser(
    books: Reservations, reqs: seq<BorrowBookReq>, userID: int)
    ensures Entries(BorrowAll(books, reqs), userID)
         == Entries(books, userID) + (if userID == 0 then [] else ForUser(reqs, userID))
    decreases |reqs|
  {
    if reqs != [] {
      var next := BorrowBook(books, reqs[0]).books;
      assert BorrowAll(books, reqs) == BorrowAll(next, reqs[1..]);
      BorrowAllAppendsPerUser(next, reqs[1..], userID);
      BorrowEntries(books, reqs[0], userID);
      if userID != 0 {
        var own := if reqs[0].userID == userID then [reqs[0]] else [];
        var rest := ForUser(reqs[1..], userID);
        assert ForUser(reqs, userID) == own + rest;
        assert Entries(next, userID) == Entries(books, userID) + own;
        assert (Entries(books, userID) + own) + rest == Entries(books, userID) + (own + rest);
      }
    }
  }

  /** From any store, the users with an entry are the old ones plus every
      user other than 0 for whom some request was made. */
  lemma {:induction false} BorrowAllKeys(books: Reservations, reqs: seq<BorrowBookReq>)
    ensures BorrowAll(books, reqs).Keys
         == books.Keys + set i | 0 <= i < |reqs| && reqs[i].userID != 0 :: reqs[i].userID
    decreases |reqs|
  {
    if reqs != [] {
      var next := BorrowBook(books, reqs[0]).books;
      BorrowAllKeys(next, reqs[1..]);
      var tail := reqs[1..];
      assert forall i | 0 <= i < |tail| :: tail[i] == reqs[i + 1];
      var all := set i | 0 <= i < |reqs| && reqs[i].userID != 0 :: reqs[i].userID;
      var rest := set i | 0 <= i < |tail| && tail[i].userID != 0 :: tail[i].userID;
      assert all == (if reqs[0].userID != 0 then {reqs[0].userID} else {}) + rest by {
        forall u | u in all
          ensures u in (if reqs[0].userID != 0 then {reqs[0].userID} else {}) + rest
        {
          var i :| 0 <= i < |reqs| && reqs[i].userID != 0 && reqs[i].userID == u;
          if i > 0 { assert tail[i - 1].userID == u; }
        }
        forall u | u in rest ensures u in all {
          var i :| 0 <= i < |tail| && tail[i].userID != 0 && tail[i].userID == u;
          assert reqs[i + 1].userID == u;
        }
      }
    }
  }
}
