/** The refresh-token table and its CRUD object (`RefreshTokenCRUD`), with the
    at-most-one-valid-token-per-user rule that `get_valid_token` relies on. */
module RefreshTokenCrud {
  import opened Core
  import opened RefreshTokenModel

  /** The keys `get` accepts. */
  const TOKEN_FILTER_KEYS: seq<string> := ["id", "user_id", "token_value", "is_revoked"]

  /** `getattr(token, key)` for the filterable columns. */
  function Column(t: RefreshToken, key: string): Option<Value>
  {
    if key == "id" then Some(VId(t.id))
    else if key == "user_id" then Some(VId(t.userId))
    else if key == "token_value" then Some(VText(t.tokenValue))
    else if key == "is_revoked" then Some(VBool(t.isRevoked))
    else None
  }

  /** The WHERE clause of `get`: not soft-deleted, and equal to every filter value. */
  predicate Visible(t: RefreshToken, f: Filter)
  {
    !t.isDeleted && forall j :: 0 <= j < |f| ==> Column(t, f[j].0) == Some(f[j].1)
  }

  /** The WHERE clause of `get_valid_token`. */
  predicate IsValidFor(t: RefreshToken, userId: Uuid, now: Instant)
  {
    t.userId == userId && !t.isRevoked && t.expiresAt >= now && !t.isDeleted
  }

  /** The filter `get(id=tokenId)`. */
  function ById(tokenId: Uuid): Filter
  {
    [("id", VId(tokenId))]
  }

  /** The outcome of `get(**f)`: the position of the row found, or the error raised. */
  function Lookup(rows: seq<RefreshToken>, f: Filter): (r: Result<nat>)
    ensures r == Err(BadRequest("Invalid key")) <==> !KeysAllowed(f, TOKEN_FILTER_KEYS)
    ensures r.Ok? ==>
              && r.value < |rows| && Visible(rows[r.value], f)
              && forall i :: 0 <= i < |rows| && Visible(rows[i], f) ==> i == r.value
    ensures r == Err(NotFound("Token not found")) <==>
              KeysAllowed(f, TOKEN_FILTER_KEYS) && forall i :: 0 <= i < |rows| ==> !Visible(rows[i], f)
    ensures r == Err(MultipleResultsFound) <==>
              && KeysAllowed(f, TOKEN_FILTER_KEYS)
              && exists i, j :: 0 <= i < j < |rows| && Visible(rows[i], f) && Visible(rows[j], f)
    ensures r.Ok? || r == Err(BadRequest("Invalid key")) || r == Err(NotFound("Token not found"))
            || r == Err(MultipleResultsFound)
  {
    if !KeysAllowed(f, TOKEN_FILTER_KEYS) then Err(BadRequest("Invalid key"))
    else
      match SelectOne(rows, t => Visible(t, f))
      case Ok(Some(k)) => Ok(k)
      case Ok(None) => Err(NotFound("Token not found"))
      case Err(e) => Err(e)
  }

  /** The outcome of the `get_valid_token` query: the position of the user's
      valid row, none, or an error when the user has several. */
  function ValidTokenRow(rows: seq<RefreshToken>, userId: Uuid, now: Instant): (r: Result<Option<nat>>)
    ensures r == Ok(None) <==> forall i :: 0 <= i < |rows| ==> !IsValidFor(rows[i], userId, now)
    ensures r.Ok? && r.value.Some? ==>
              && r.value.value < |rows| && IsValidFor(rows[r.value.value], userId, now)
              && forall i :: 0 <= i < |rows| && IsValidFor(rows[i], userId, now) ==> i == r.value.value
    ensures r == Err(MultipleResultsFound) <==>
              exists i, j :: 0 <= i < j < |rows| && IsValidFor(rows[i], userId, now) && IsValidFor(rows[j], userId, now)
    ensures r.Ok? || r == Err(MultipleResultsFound)
  {
    SelectOne(rows, t => IsValidFor(t, userId, now))
  }

  /** The rule the store is meant to keep: no user has two valid rows at `now`. */
  predicate AtMostOneValid(rows: seq<RefreshToken>, now: Instant)
  {
    forall i, j :: 0 <= i < |rows| && 0 <= j < |rows| && i != j && IsValidFor(rows[i], rows[i].userId, now) ==>
      !IsValidFor(rows[j], rows[i].userId, now)
  }

  /** Primary-key uniqueness of the table. */
  predicate IdsDistinct(rows: seq<RefreshToken>)
  {
    forall i, j :: 0 <= i < |rows| && 0 <= j < |rows| && rows[i].id == rows[j].id ==> i == j
  }

  predicate HasId(rows: seq<RefreshToken>, tokenId: Uuid)
  {
    exists i :: 0 <= i < |rows| && rows[i].id == tokenId
  }

  /** The table after `token.is_revoked = True` on row `k`. */
  function WithRevoked(rows: seq<RefreshToken>, k: nat): seq<RefreshToken>
    requires k < |rows|
  {
    rows[k := rows[k].(isRevoked := true)]
  }

  /** The table after `token.is_deleted = True` on row `k`. */
  function WithDeleted(rows: seq<RefreshToken>, k: nat): seq<RefreshToken>
    requires k < |rows|
  {
    rows[k := rows[k].(isDeleted := true)]
  }

  /** The user ids that some token row references through its `user_id`
      foreign key. Revoked and soft-deleted rows stay in the table, so they
      reference their owner too. */
  function TokenOwners(rows: seq<RefreshToken>): (r: set<Uuid>)
    ensures forall i :: 0 <= i < |rows| ==> rows[i].userId in r
    ensures forall u :: u in r ==> exists i :: 0 <= i < |rows| && rows[i].userId == u
  {
    set i | 0 <= i < |rows| :: rows[i].userId
  }

  class RefreshTokenCRUD {
    var rows: seq<RefreshToken>

    predicate Valid()
      reads this
    {
      IdsDistinct(rows)
    }

    constructor ()
      ensures Valid() && rows == []
    {
      rows := [];
    }

    /** `create(data)`: adds the row built from `data`; a clash on the primary
        key is refused by the database and adds nothing. */
    method Create(data: RefreshTokenBase) returns (r: Result<RefreshToken>)
      requires Valid()
      modifies this
      ensures Valid()
      ensures HasId(old(rows), data.id) ==> r == Err(IntegrityError) && rows == old(rows)
      ensures !HasId(old(rows), data.id) ==> r == Ok(StoredRow(data)) && rows == old(rows) + [StoredRow(data)]
    {
      if HasId(rows, data.id) {
        r := Err(IntegrityError);
      } else {
        var t := StoredRow(data);
        rows := rows + [t];
        r := Ok(t);
      }
    }

    /** `get(**f)`: the keys are checked one by one before any row is read. */
    method Get(f: Filter) returns (r: Result<nat>)
      ensures r == Lookup(rows, f)
    {
      var ok := CheckKeys(f, TOKEN_FILTER_KEYS);
      if !ok {
        return Err(BadRequest("Invalid key"));
      }
      var one := SelectOne(rows, t => Visible(t, f));
      match one
      case Ok(Some(k)) => r := Ok(k);
      case Ok(None) => r := Err(NotFound("Token not found"));
      case Err(e) => r := Err(e);
    }

    /** `get_valid_token(userId)` read at instant `now`: the value of the user's valid row. */
    method GetValidToken(userId: Uuid, now: Instant) returns (r: Result<Option<string>>)
      ensures match ValidTokenRow(rows, userId, now)
              case Ok(Some(k)) => r == Ok(Some(rows[k].tokenValue))
              case Ok(None) => r == Ok(None)
              case Err(e) => r == Err(e)
    {
      var one := SelectOne(rows, t => IsValidFor(t, userId, now));
      match one
      case Ok(Some(k)) => r := Ok(Some(rows[k].tokenValue));
      case Ok(None) => r := Ok(None);
      case Err(e) => r := Err(e);
    }

    /** `revoke_token(tokenId)`: sets the revoked flag of the row with that id. */
    method RevokeToken(tokenId: Uuid) returns (r: Result<RefreshToken>)
      requires Valid()
      modifies this
      ensures Valid()
      ensures match Lookup(old(rows), ById(tokenId))
              case Ok(k) => rows == WithRevoked(old(rows), k) && r == Ok(rows[k])
              case Err(e) => rows == old(rows) && r == Err(e)
      ensures r.Ok? ==> r.value.id == tokenId && r.value.isRevoked
      ensures r.Err? ==> r == Err(NotFound("Token not found"))
    {
      LookupById(rows, tokenId);
      var found := Get(ById(tokenId));
      match found
      case Ok(k) =>
        rows := WithRevoked(rows, k);
        r := Ok(rows[k]);
      case Err(e) =>
        r := Err(e);
    }

    /** `delete(tokenId)` as evidently intended, i.e. with `get(id=tokenId)`:
        sets the soft-delete flag of the row with that id. */
    method Delete(tokenId: Uuid) returns (r: Result<bool>)
      requires Valid()
      modifies this
      ensures Valid()
      ensures match Lookup(old(rows), ById(tokenId))
              case Ok(k) => rows == WithDeleted(old(rows), k) && r == Ok(true)
              case Err(e) => rows == old(rows) && r == Err(e)
      ensures r.Err? ==> r == Err(NotFound("Token not found"))
    {
      LookupById(rows, tokenId);
      var found := Get(ById(tokenId));
      match found
      case Ok(k) =>
        rows := WithDeleted(rows, k);
        r := Ok(true);
      case Err(e) =>
        r := Err(e);
    }

    /** `delete(tokenId)` as written: `self.get(token_id)` passes the id
        positionally to a method that takes keyword arguments only, so the call
        raises before any row is read or changed. */
    method DeleteAsWritten(tokenId: Uuid) returns (r: Result<bool>)
      ensures r == Err(TypeError)
    {
      r := Err(TypeError);
    }
  }

  /** With distinct ids, `get(id=tokenId)` finds exactly the live row with that id,
      and fails with not-found when that id is missing or soft-deleted. */
  lemma LookupById(rows: seq<RefreshToken>, tokenId: Uuid)
    requires IdsDistinct(rows)
    ensures forall k :: 0 <= k < |rows| && rows[k].id == tokenId && !rows[k].isDeleted ==> Lookup(rows, ById(tokenId)) == Ok(k)
    ensures (forall k :: 0 <= k < |rows| ==> rows[k].id != tokenId || rows[k].isDeleted) ==>
              Lookup(rows, ById(tokenId)) == Err(NotFound("Token not found"))
    ensures Lookup(rows, ById(tokenId)).Ok? || Lookup(rows, ById(tokenId)) == Err(NotFound("Token not found"))
  {
    var f := ById(tokenId);
    assert KeysAllowed(f, TOKEN_FILTER_KEYS);
    forall i | 0 <= i < |rows|
      ensures Visible(rows[i], f) <==> rows[i].id == tokenId && !rows[i].isDeleted
    {
      assert Column(rows[i], f[0].0) == Some(VId(rows[i].id));
    }
  }

  /** Revoking is idempotent: the row stays reachable by id (the lookup does not
      filter on the revoked flag), and a second revoke leaves the table as the first did. */
  lemma RevokeIsIdempotent(rows: seq<RefreshToken>, tokenId: Uuid, k: nat)
    requires IdsDistinct(rows)
    requires Lookup(rows, ById(tokenId)) == Ok(k)
    ensures IdsDistinct(WithRevoked(rows, k))
    ensures Lookup(WithRevoked(rows, k), ById(tokenId)) == Ok(k)
    ensures WithRevoked(WithRevoked(rows, k), k) == WithRevoked(rows, k)
  {
    LookupById(rows, tokenId);
    assert rows[k].id == tokenId by {
      assert Column(rows[k], ById(tokenId)[0].0) == Some(VId(rows[k].id));
    }
    LookupById(WithRevoked(rows, k), tokenId);
  }

  /** After the soft delete of row `k`, no lookup and no valid-token query returns it. */
  lemma DeletedRowIsInvisible(rows: seq<RefreshToken>, k: nat, f: Filter, userId: Uuid, now: Instant)
    requires k < |rows|
    ensures Lookup(WithDeleted(rows, k), f) != Ok(k)
    ensures ValidTokenRow(WithDeleted(rows, k), userId, now) != Ok(Some(k))
  {
  }

  /** A second delete of the same id fails with not-found and changes nothing. */
  lemma DeleteTwiceFails(rows: seq<RefreshToken>, tokenId: Uuid, k: nat)
    requires IdsDistinct(rows)
    requires Lookup(rows, ById(tokenId)) == Ok(k)
    ensures Lookup(WithDeleted(rows, k), ById(tokenId)) == Err(NotFound("Token not found"))
  {
    LookupById(rows, tokenId);
    assert rows[k].id == tokenId by {
      assert Column(rows[k], ById(tokenId)[0].0) == Some(VId(rows[k].id));
    }
    LookupById(WithDeleted(rows, k), tokenId);
  }

  /** Under the rule, the valid-token query never sees two rows. */
  lemma AtMostOneValidQueryOk(rows: seq<RefreshToken>, userId: Uuid, now: Instant)
    requires AtMostOneValid(rows, now)
    ensures ValidTokenRow(rows, userId, now).Ok?
  {
  }

  /** The rule, once true, stays true as the clock advances. */
  lemma AtMostOneValidLater(rows: seq<RefreshToken>, now: Instant, later: Instant)
    requires AtMostOneValid(rows, now) && now <= later
    ensures AtMostOneValid(rows, later)
  {
    forall i, j | 0 <= i < |rows| && 0 <= j < |rows| && i != j && IsValidFor(rows[i], rows[i].userId, later)
      ensures !IsValidFor(rows[j], rows[i].userId, later)
    {
      assert IsValidFor(rows[i], rows[i].userId, now);
    }
  }

  /** Appending a row with a fresh id keeps the primary key and leaves the
      existing rows in place. */
  lemma AppendFreshId(rows: seq<RefreshToken>, t: RefreshToken)
    requires IdsDistinct(rows) && !HasId(rows, t.id)
    ensures IdsDistinct(rows + [t]) && (rows + [t])[..|rows|] == rows
  {
    var rows' := rows + [t];
    assert forall i :: 0 <= i < |rows| ==> rows'[i] == rows[i];
    assert rows'[..|rows|] == rows;
  }

  /** Revoking a row keeps the rule. */
  lemma RevokeKeepsRule(rows: seq<RefreshToken>, k: nat, now: Instant)
    requires AtMostOneValid(rows, now) && k < |rows|
    ensures AtMostOneValid(WithRevoked(rows, k), now)
  {
    var revoked := WithRevoked(rows, k);
    forall i, j | 0 <= i < |revoked| && 0 <= j < |revoked| && i != j && IsValidFor(revoked[i], revoked[i].userId, now)
      ensures !IsValidFor(revoked[j], revoked[i].userId, now)
    {
      assert revoked[i] == rows[i];
      assert IsValidFor(rows[i], rows[i].userId, now);
    }
  }

  /** Neither a revoke nor a soft delete removes a reference to a user:
      the set of referenced owners stays the same. */
  lemma FlagsKeepOwners(rows: seq<RefreshToken>, k: nat)
    requires k < |rows|
    ensures TokenOwners(WithRevoked(rows, k)) == TokenOwners(rows)
    ensures TokenOwners(WithDeleted(rows, k)) == TokenOwners(rows)
  {
    var revoked, deleted := WithRevoked(rows, k), WithDeleted(rows, k);
    assert forall i :: 0 <= i < |rows| ==> revoked[i].userId == rows[i].userId && deleted[i].userId == rows[i].userId;
  }

  /** A soft delete keeps the rule. */
  lemma DeleteKeepsRule(rows: seq<RefreshToken>, k: nat, now: Instant)
    requires AtMostOneValid(rows, now) && k < |rows|
    ensures AtMostOneValid(WithDeleted(rows, k), now)
  {
    var deleted := WithDeleted(rows, k);
    forall i, j | 0 <= i < |deleted| && 0 <= j < |deleted| && i != j && IsValidFor(deleted[i], deleted[i].userId, now)
      ensures !IsValidFor(deleted[j], deleted[i].userId, now)
    {
      assert deleted[i] == rows[i];
      assert IsValidFor(rows[i], rows[i].userId, now);
    }
  }

  /** Adding a row for a user who has no valid row keeps the rule, and a valid
      new row is then what the query returns. */
  lemma AddForUserWithoutValid(rows: seq<RefreshToken>, t: RefreshToken, now: Instant)
    requires AtMostOneValid(rows, now)
    requires ValidTokenRow(rows, t.userId, now) == Ok(None)
    ensures AtMostOneValid(rows + [t], now)
    ensures IsValidFor(t, t.userId, now) ==> ValidTokenRow(rows + [t], t.userId, now) == Ok(Some(|rows|))
  {
    var rows' := rows + [t];
    assert forall i :: 0 <= i < |rows| ==> rows'[i] == rows[i];
    assert rows'[|rows|] == t;
  }

  /** Revoking the presenter's valid row and then adding a row for the same user
      keeps the rule; a valid new row becomes that user's only valid row. */
  lemma RotationKeepsRule(rows: seq<RefreshToken>, k: nat, t: RefreshToken, now: Instant)
    requires AtMostOneValid(rows, now)
    requires k < |rows| && IsValidFor(rows[k], t.userId, now)
    ensures AtMostOneValid(WithRevoked(rows, k) + [t], now)
    ensures IsValidFor(t, t.userId, now) ==> ValidTokenRow(WithRevoked(rows, k) + [t], t.userId, now) == Ok(Some(|rows|))
  {
    var revoked := WithRevoked(rows, k);
    RevokeKeepsRule(rows, k, now);
    forall i | 0 <= i < |revoked|
      ensures !IsValidFor(revoked[i], t.userId, now)
    {
      if i != k {
        assert revoked[i] == rows[i];
      }
    }
    AddForUserWithoutValid(revoked, t, now);
  }

  /** At the instant a row expires it is both expired and still returned by
      the valid-token query, whose comparison is `expires_at >= now`. */
  lemma ExpiryBoundaryOverlap(rows: seq<RefreshToken>, k: nat)
    requires k < |rows| && !rows[k].isRevoked && !rows[k].isDeleted
    requires AtMostOneValid(rows, rows[k].expiresAt)
    ensures IsExpired(rows[k], rows[k].expiresAt)
    ensures ValidTokenRow(rows, rows[k].userId, rows[k].expiresAt) == Ok(Some(k))
  {
    assert IsValidFor(rows[k], rows[k].userId, rows[k].expiresAt);
  }
}
