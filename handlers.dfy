/**
 * The five request handlers over the users table. The table is a map from identifier to
 * row held by a `UserStore` object; each handler is a method on it. Whatever the handlers
 * get from outside (the parsed query and body, the path identifier, the clock, the fresh
 * UUID, the password hasher and every database failure) arrives as a parameter.
 */
module Handlers {
  import opened Wrappers
  import opened Models
  import opened Validation

  // ---------------------------------------------------------------------------
  // Pagination

  const DefaultPage := 1
  const DefaultLimit := 10

  /** The effective page, page size and row offset of a list request. */
  datatype Paging = Paging(page: int, limit: int, offset: int)

  /** A positive multiple of a non-negative number is at least that number. */
  lemma {:induction false} MulAtLeast(e: int, l: int)
    requires e >= 1 && l >= 0
    ensures e * l >= l
  {
    if e > 1 {
      MulAtLeast(e - 1, l);
      assert e * l == (e - 1) * l + l;
    }
  }

  /** Euclidean division is unique: `q` and `r` are the quotient and remainder of `q * l + r`. */
  lemma DivModUnique(x: int, l: int, q: int, r: int)
    requires l >= 1 && 0 <= r < l && x == q * l + r
    ensures x / l == q && x % l == r
  {
    var e := q - x / l;
    assert e * l == x % l - r;
    if e >= 1 {
      MulAtLeast(e, l);
    } else if e <= -1 {
      MulAtLeast(-e, l);
    }
  }

  /** The first row of page `page` (counting from 1) when pages hold `limit` rows. */
  function Offset(page: int, limit: int): (offset: int)
    requires page >= 1 && limit >= 1
    ensures offset >= 0 && offset % limit == 0 && offset / limit == page - 1
  {
    DivModUnique((page - 1) * limit, limit, page - 1, 0);
    (page - 1) * limit
  }

  /** Page `page + 1` starts where page `page` ends, so the pages tile the rows without gap or overlap. */
  lemma ConsecutivePagesAdjoin(page: int, limit: int)
    requires page >= 1 && limit >= 1
    ensures Offset(page + 1, limit) == Offset(page, limit) + limit
  {
    assert page * limit == (page - 1) * limit + limit;
  }

  /**
   * The `page` and `limit` query parameters, as `strconv.Atoi` left them (`None` when the
   * parameter is absent or does not parse). A parsed value that is not positive keeps the default.
   */
  function Pagination(pageArg: Option<int>, limitArg: Option<int>): (p: Paging)
    ensures p.page >= 1 && p.limit >= 1
    ensures pageArg.Some? && pageArg.value > 0 ==> p.page == pageArg.value
    ensures pageArg.None? || pageArg.value <= 0 ==> p.page == DefaultPage
    ensures limitArg.Some? && limitArg.value > 0 ==> p.limit == limitArg.value
    ensures limitArg.None? || limitArg.value <= 0 ==> p.limit == DefaultLimit
    ensures p.offset >= 0 && p.offset % p.limit == 0 && p.offset / p.limit == p.page - 1
  {
    var page := if pageArg.Some? && pageArg.value > 0 then pageArg.value else DefaultPage;
    var limit := if limitArg.Some? && limitArg.value > 0 then limitArg.value else DefaultLimit;
    Paging(page, limit, Offset(page, limit))
  }

  const MaxInt64 := 0x7FFF_FFFF_FFFF_FFFF
  const TwoTo64 := 0x1_0000_0000_0000_0000

  /** Go's 64-bit `int` arithmetic: the two's-complement value congruent to `x`. */
  function WrapInt64(x: int): (r: int)
    ensures -MaxInt64 - 1 <= r <= MaxInt64
    ensures (x - r) % TwoTo64 == 0
  {
    var m := x % TwoTo64;
    if m > MaxInt64 then m - TwoTo64 else m
  }

  /** The offset exactly as the source computes it: `(page - 1) * limit` on 64-bit ints. */
  function GoOffset(page: int, limit: int): int
    requires 1 <= page <= MaxInt64 && 1 <= limit <= MaxInt64
  {
    WrapInt64((page - 1) * limit)
  }

  /**
   * Both parameters parse as in-range ints, yet the 64-bit product wraps: page 2^62 + 1 of
   * 4 rows is served from offset 0 (the first page again), and with 2 rows the offset turns
   * negative, which the database rejects.
   */
  lemma GoOffsetWraps()
    ensures GoOffset(0x4000_0000_0000_0001, 4) == 0 != Offset(0x4000_0000_0000_0001, 4)
    ensures GoOffset(0x4000_0000_0000_0001, 2) < 0
  {
  }

  // ---------------------------------------------------------------------------
  // Views of a row

  /** A row as the list query returns it: only id, name and e-mail are selected. */
  function ListView(u: User): User {
    ZeroUser.(id := u.id, name := u.name, email := u.email)
  }

  /** A row as the get handler returns it: every column but the password. */
  function PublicView(u: User): User {
    u.(password := "")
  }

  /** The order in which the database happens to scan the table: every row exactly once. */
  predicate IsScanOrder(scan: seq<Id>, rows: map<Id, User>) {
    && |scan| == |rows|
    && (forall i | 0 <= i < |scan| :: scan[i] in rows)
    && (forall i, j | 0 <= i < j < |scan| :: scan[i] != scan[j])
  }

  function Min(a: int, b: int): int {
    if a < b then a else b
  }

  // ---------------------------------------------------------------------------
  // Failures the database may report

  /** Which step of the list handler fails: the count, the query, the scan of one listed row, the iteration. */
  datatype ListFaults = ListFaults(countFails: bool, queryFails: bool, scanFailsAt: Option<nat>, iterationFails: bool)

  /** Which step of a write transaction fails. */
  datatype TxFaults = TxFaults(beginFails: bool, execFails: bool, commitFails: bool) {
    predicate Any() { beginFails || execFails || commitFails }
  }

  const NoFaults := TxFaults(false, false, false)

  const NotFound := Response(StatusNotFound, ErrorText("User not found"))
  const InvalidPayload := Response(StatusBadRequest, ErrorText("Invalid request payload"))

  /** The validator's verdict on a decoded body, as a handler answers it: 400 with the message. */
  function Rejection(e: ValidationError): Response {
    Response(StatusBadRequest, ErrorText(e.Message()))
  }

  /** A create request that passes validation, hashing and the hash check, before the transaction. */
  predicate CreateReady(body: Option<User>, table: map<Id, User>, lookupFault: Option<string>,
                        hash: string -> Option<string>, verify: (string, string) -> bool)
  {
    && body.Some?
    && ValidateUserInput(body.value, table, lookupFault, false).None?
    && hash(body.value.password).Some?
    && verify(body.value.password, hash(body.value.password).value)
  }

  // ---------------------------------------------------------------------------
  // The handlers

  class UserStore {
    /** The users table, keyed by identifier. */
    var rows: map<Id, User>

    /** Every row is stored under its own identifier. */
    ghost predicate Valid()
      reads this
    {
      forall id | id in rows :: rows[id].id == id
    }

    constructor ()
      ensures Valid() && rows == map[]
    {
      rows := map[];
    }

    /**
     * GET /users: one page of rows, in the database's scan order, with the effective page,
     * limit and the count of all rows.
     */
    method GetAllUsers(pageArg: Option<int>, limitArg: Option<int>, scan: seq<Id>, faults: ListFaults)
      returns (resp: Response)
      requires IsScanOrder(scan, rows)
      ensures HidesPasswords(resp)
      ensures
        var p := Pagination(pageArg, limitArg);
        var shown := Min(p.offset + p.limit, |scan|) - Min(p.offset, |scan|);
        var failed := faults.countFails || faults.queryFails || faults.iterationFails
          || (faults.scanFailsAt.Some? && faults.scanFailsAt.value < shown);
        && (failed ==> resp == InternalError)
        && (!failed ==>
          && resp.status == StatusOK && resp.body.PageJson?
          && resp.body.listing.page == p.page
          && resp.body.listing.limit == p.limit
          && resp.body.listing.totalUsers == |rows|
          && |resp.body.listing.users| == shown <= p.limit
          && forall i | 0 <= i < shown :: resp.body.listing.users[i] == ListView(rows[scan[p.offset + i]]))
    {
      var p := Pagination(pageArg, limitArg);
      var page, limit, offset := p.page, p.limit, p.offset;
      if faults.countFails {
        return InternalError;
      }
      var totalUsers := |rows|;
      if faults.queryFails {
        return InternalError;
      }
      var lo := Min(offset, |scan|);
      var hi := Min(offset + limit, |scan|);
      var users: seq<User> := [];
      var k := lo;
      while k < hi
        invariant lo <= k <= hi
        invariant |users| == k - lo
        invariant forall i | 0 <= i < |users| :: users[i] == ListView(rows[scan[lo + i]])
        invariant faults.scanFailsAt.Some? ==> faults.scanFailsAt.value >= k - lo
      {
        if faults.scanFailsAt == Some(k - lo) {
          return InternalError;
        }
        var row := rows[scan[k]];
        var user := ZeroUser;
        user := user.(id := row.id, name := row.name, email := row.email);
        users := users + [user];
        k := k + 1;
      }
      if faults.iterationFails {
        return InternalError;
      }
      resp := Response(StatusOK, PageJson(PaginatedResponse(users, page, limit, totalUsers)));
    }

    /** GET /users/{id}: the row without its password, or 404. */
    method GetUser(id: Id, queryFails: bool) returns (resp: Response)
      ensures HidesPasswords(resp)
      ensures queryFails ==> resp == InternalError
      ensures !queryFails && id !in rows ==> resp == NotFound
      ensures !queryFails && id in rows ==> resp == Response(StatusOK, UserJson(PublicView(rows[id])))
      ensures !queryFails && id in rows && Valid() ==> resp.body.user.id == id
    {
      var user := ZeroUser;
      if queryFails {
        return InternalError;
      }
      if id !in rows {
        return NotFound;
      }
      var row := rows[id];
      user := user.(id := row.id, name := row.name, email := row.email,
                    createdAt := row.createdAt, updatedAt := row.updatedAt, isActive := row.isActive);
      user := user.(password := "");
      resp := Response(StatusOK, UserJson(user));
    }

    /**
     * POST /users: validate, hash and check the hash, stamp the record, then insert it in a
     * transaction. A failure at any step leaves the table as it was.
     */
    method CreateUser(body: Option<User>, lookupFault: Option<string>, hash: string -> Option<string>,
                      verify: (string, string) -> bool, freshId: Id, now: Time, tx: TxFaults)
      returns (resp: Response)
      requires Valid()
      modifies this
      ensures Valid()
      ensures HidesPasswords(resp)
      ensures resp.status != StatusCreated ==> rows == old(rows)
      ensures body.None? ==> resp == InvalidPayload
      ensures body.Some? && ValidateUserInput(body.value, old(rows), lookupFault, false).Some? ==>
        resp == Rejection(ValidateUserInput(body.value, old(rows), lookupFault, false).value)
      ensures (body.Some? && ValidateUserInput(body.value, old(rows), lookupFault, false).None?
               && hash(body.value.password).None?) ==> resp == InternalError
      ensures (body.Some? && ValidateUserInput(body.value, old(rows), lookupFault, false).None?
               && hash(body.value.password).Some? && !verify(body.value.password, hash(body.value.password).value)) ==>
        resp == Response(StatusInternalServerError, ErrorText("Error hashing password"))
      ensures CreateReady(body, old(rows), lookupFault, hash, verify) && (tx.Any() || freshId in old(rows)) ==>
        resp == InternalError
      ensures resp.status == StatusCreated <==>
        CreateReady(body, old(rows), lookupFault, hash, verify) && !tx.Any() && freshId !in old(rows)
      ensures resp.status == StatusCreated ==>
        var stored := User(freshId, body.value.name, body.value.email, hash(body.value.password).value, now, now, true);
        && rows == old(rows)[freshId := stored]
        && |rows| == |old(rows)| + 1
        && resp.body == UserJson(PublicView(stored))
    {
      if body.None? {
        return InvalidPayload;
      }
      var user := body.value;
      var err := ValidateUserInput(user, rows, lookupFault, false);
      if err.Some? {
        return Rejection(err.value);
      }
      var hashed := hash(user.password);
      if hashed.None? {
        return InternalError;
      }
      if !verify(user.password, hashed.value) {
        return Response(StatusInternalServerError, ErrorText("Error hashing password"));
      }
      user := user.(password := hashed.value);
      user := user.(id := freshId);
      user := user.(createdAt := now, updatedAt := now);
      user := user.(isActive := true);

      // The transaction works on a private copy that only a successful commit publishes.
      if tx.beginFails {
        return InternalError;
      }
      var pending := rows;
      if tx.execFails || user.id in pending {
        return InternalError;
      }
      pending := pending[user.id := user];
      assert forall k | k in pending :: pending[k].id == k;
      assert CreateReady(body, old(rows), lookupFault, hash, verify);
      if tx.commitFails {
        return InternalError;
      }
      rows := pending;

      user := user.(password := "");
      resp := Response(StatusCreated, UserJson(user));
    }

    /**
     * PUT /users/{id}: validate (without the duplicate check), then set the name, e-mail and
     * update time of the row at the path identifier. A missing row is not an error.
     */
    method UpdateUser(id: Id, body: Option<User>, now: Time, tx: TxFaults) returns (resp: Response)
      requires Valid()
      modifies this
      ensures Valid()
      ensures HidesPasswords(resp)
      ensures resp.status != StatusOK ==> rows == old(rows)
      ensures body.None? ==> resp == InvalidPayload
      ensures body.Some? && ValidateUserInput(body.value, old(rows), None, true).Some? ==>
        resp == Rejection(ValidateUserInput(body.value, old(rows), None, true).value)
      ensures body.Some? && ValidateUserInput(body.value, old(rows), None, true).None? && tx.Any() ==>
        resp == InternalError
      ensures resp.status == StatusOK <==>
        body.Some? && ValidateUserInput(body.value, old(rows), None, true).None? && !tx.Any()
      ensures resp.status == StatusOK ==>
        && resp.body == UserJson(body.value.(updatedAt := now, password := ""))
        && rows.Keys == old(rows).Keys
        && (id in old(rows) ==>
              rows == old(rows)[id := old(rows)[id].(name := body.value.name, email := body.value.email, updatedAt := now)])
        && (id !in old(rows) ==> rows == old(rows))
    {
      if body.None? {
        return InvalidPayload;
      }
      var user := body.value;
      var err := ValidateUserInput(user, rows, None, true);
      if err.Some? {
        return Rejection(err.value);
      }
      user := user.(updatedAt := now);

      if tx.beginFails {
        return InternalError;
      }
      var pending := rows;
      if tx.execFails {
        return InternalError;
      }
      if id in pending {
        var row := pending[id].(name := user.name, email := user.email, updatedAt := user.updatedAt);
        assert row.id == id;
        pending := pending[id := row];
      }
      assert forall k | k in pending :: pending[k].id == k;
      if tx.commitFails {
        return InternalError;
      }
      rows := pending;

      user := user.(password := "");
      resp := Response(StatusOK, UserJson(user));
    }

    /**
     * DELETE /users/{id}: read the row's name and e-mail, remove the row and confirm with
     * them, all in one transaction.
     */
    method DeleteUser(id: Id, readFails: bool, tx: TxFaults) returns (resp: Response)
      requires Valid()
      modifies this
      ensures Valid()
      ensures HidesPasswords(resp)
      ensures resp.status != StatusOK ==> rows == old(rows)
      ensures tx.beginFails || (!tx.beginFails && readFails) ==> resp == InternalError
      ensures !tx.beginFails && !readFails && id !in old(rows) ==> resp == NotFound
      ensures !tx.beginFails && !readFails && id in old(rows) && tx.Any() ==> resp == InternalError
      ensures resp.status == StatusOK <==> !readFails && id in old(rows) && !tx.Any()
      ensures resp.status == StatusOK ==>
        && rows == old(rows) - {id}
        && resp.body == MessageJson("User " + old(rows)[id].name + " with ID " + id + " and email "
                                    + old(rows)[id].email + " deleted successfully")
    {
      if tx.beginFails {
        return InternalError;
      }
      var pending := rows;
      if readFails {
        return InternalError;
      }
      if id !in pending {
        return NotFound;
      }
      var user := ZeroUser;
      user := user.(name := pending[id].name, email := pending[id].email);
      if tx.execFails {
        return InternalError;
      }
      pending := pending - {id};
      if tx.commitFails {
        return InternalError;
      }
      rows := pending;

      resp := Response(StatusOK, MessageJson("User " + user.name + " with ID " + id + " and email "
                                             + user.email + " deleted successfully"));
    }
  }

  // ---------------------------------------------------------------------------
  // Properties across requests

  /** Two reads of the same identifier with no write in between answer identically. */
  method GetIsRepeatable(store: UserStore, id: Id) returns (first: Response, second: Response)
    ensures first == second
    ensures first.status == StatusOK <==> id in store.rows
  {
    first := store.GetUser(id, false);
    second := store.GetUser(id, false);
  }

  /** After a successful delete, reading the same identifier answers 404. */
  method DeleteThenGet(store: UserStore, id: Id) returns (deleted: Response, afterwards: Response)
    requires store.Valid()
    modifies store
    ensures deleted.status == StatusOK ==> afterwards == NotFound
    ensures deleted.status == StatusOK <==> id in old(store.rows)
  {
    deleted := store.DeleteUser(id, false, NoFaults);
    afterwards := store.GetUser(id, false);
  }

  /** A second create of the same body is refused as a duplicate once the first has succeeded, and stores nothing. */
  method DuplicateCreateRejected(store: UserStore, body: User, hash: string -> Option<string>,
                                 verify: (string, string) -> bool, id1: Id, id2: Id, now1: Time, now2: Time)
    returns (first: Response, second: Response)
    requires store.Valid()
    modifies store
    ensures first.status == StatusCreated ==> second == Rejection(EmailRegistered)
    ensures first.status == StatusCreated ==> |store.rows| == |old(store.rows)| + 1
  {
    first := store.CreateUser(Some(body), None, hash, verify, id1, now1, NoFaults);
    if first.status == StatusCreated {
      InsertedEmailIsFound(old(store.rows), id1, store.rows[id1]);
      KnownEmailRejected(body, old(store.rows), store.rows);
    }
    second := store.CreateUser(Some(body), None, hash, verify, id2, now2, NoFaults);
  }

  /** Deleting the only row that holds an e-mail frees that e-mail for a later create. */
  method DeleteFreesEmail(store: UserStore, id: Id) returns (deleted: Response)
    requires store.Valid()
    requires id in store.rows
    requires forall k | k in store.rows && k != id :: store.rows[k].email != store.rows[id].email
    modifies store
    ensures deleted.status == StatusOK
    ensures EmailExists(old(store.rows)[id].email, store.rows, None) == Success(false)
  {
    deleted := store.DeleteUser(id, false, NoFaults);
    RemovedEmailIsGone(old(store.rows), id, old(store.rows)[id].email);
  }
}
