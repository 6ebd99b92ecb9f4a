/** The session helpers: credential check, access-token claims, the claim
    check of the current user, and validation, revocation and creation of
    refresh tokens. Signing and decoding of the bearer string are left out:
    a claim set stands for its encoding, and a decode result is an input. */
module Jwt {
  import opened Core
  import opened UserModel
  import opened UserCrud
  import opened RefreshTokenModel
  import opened RefreshTokenCrud

  /** A decoded claim set. */
  type Payload = map<string, Value>

  const BAD_CREDENTIALS := "Incorrect username or password"
  const BAD_TOKEN := "Could not validate credentials"
  const EXPIRED_TOKEN := "Token has expired"

  /** `create_jwt_token(data, delta)` read at `now`: a copy of `data` whose
      `exp` claim is added or replaced; `data` itself is a value and stays as it was. */
  function CreateJwtToken(data: Payload, delta: int, now: Instant): (claims: Payload)
    ensures "exp" in claims && claims["exp"] == VTime(now + delta)
    ensures forall key :: key != "exp" ==> (key in claims <==> key in data)
    ensures forall key :: key in data && key != "exp" ==> claims[key] == data[key]
  {
    data["exp" := VTime(now + delta)]
  }

  /** The claim check of `get_current_user`; `decoded` is `None` when
      `jwt.decode` raised. `payload.get("sub")` is `None` both for a missing
      claim and for a null one. */
  function SubjectClaim(decoded: Option<Payload>): (r: Result<Value>)
    ensures r.Ok? <==> decoded.Some? && "sub" in decoded.value && decoded.value["sub"] != VNull
    ensures r.Ok? ==> r.value == decoded.value["sub"]
    ensures r.Err? ==> r.error == Unauthorized(BAD_TOKEN)
  {
    if decoded.None? || "sub" !in decoded.value || decoded.value["sub"] == VNull then Err(Unauthorized(BAD_TOKEN))
    else Ok(decoded.value["sub"])
  }

  /** The outcome of `get_current_user`: the position of the user the `sub`
      claim names. An unknown name fails in the lookup with not-found, so the
      handler's own `user is None` branch is never taken. */
  function CurrentUser(rows: seq<User>, decoded: Option<Payload>): (r: Result<nat>)
    ensures SubjectClaim(decoded).Err? ==> r == Err(Unauthorized(BAD_TOKEN))
    ensures r.Ok? ==> r.value < |rows| && SubjectClaim(decoded) == Ok(VText(rows[r.value].username))
    ensures (SubjectClaim(decoded).Ok? && forall i :: 0 <= i < |rows| ==> SubjectClaim(decoded).value != VText(rows[i].username)) ==>
              r == Err(NotFound("User not found"))
    ensures (FieldsUnique(rows) && SubjectClaim(decoded).Ok? && exists i :: 0 <= i < |rows| && SubjectClaim(decoded).value == VText(rows[i].username)) ==>
              r.Ok?
  {
    match SubjectClaim(decoded)
    case Err(e) => Err(e)
    case Ok(sub) =>
      SubjectLookup(rows, sub);
      UserLookup(rows, ByUsername(sub))
  }

  lemma SubjectLookup(rows: seq<User>, sub: Value)
    ensures forall i :: 0 <= i < |rows| ==> (UserMatches(rows[i], ByUsername(sub)) <==> sub == VText(rows[i].username))
    ensures KeysAllowed(ByUsername(sub), USER_FILTER_KEYS)
  {
    forall i | 0 <= i < |rows|
      ensures UserMatches(rows[i], ByUsername(sub)) <==> sub == VText(rows[i].username)
    {
      assert UserColumn(rows[i], ByUsername(sub)[0].0) == Some(VText(rows[i].username));
    }
  }

  /** `get_current_user`: the claim check, then the lookup by username. */
  method GetCurrentUser(users: UsersCRUD, decoded: Option<Payload>) returns (r: Result<User>)
    ensures match CurrentUser(users.rows, decoded)
            case Ok(k) => r == Ok(users.rows[k])
            case Err(e) => r == Err(e)
  {
    var sub := SubjectClaim(decoded);
    if sub.Err? {
      return Err(sub.error);
    }
    var found := users.Get(ByUsername(sub.value));
    match found
    case Ok(k) => r := Ok(users.rows[k]);
    case Err(e) => r := Err(e);
  }

  /** The outcome of `authenticate_user`: the position of the user whose
      stored hash verifies against `password`. An unknown username fails in
      the lookup with not-found before any password is checked. */
  function Authentication(rows: seq<User>, username: string, password: string, verify: (string, string) -> bool): (r: Result<nat>)
    ensures r.Ok? ==> r.value < |rows| && rows[r.value].username == username && verify(password, rows[r.value].password)
    ensures (forall i :: 0 <= i < |rows| ==> rows[i].username != username) ==> r == Err(NotFound("User not found"))
    ensures FieldsUnique(rows) ==>
              forall i :: 0 <= i < |rows| && rows[i].username == username ==>
                r == if verify(password, rows[i].password) then Ok(i) else Err(Unauthorized(BAD_CREDENTIALS))
  {
    SubjectLookup(rows, VText(username));
    match UserLookup(rows, ByUsername(VText(username)))
    case Err(e) => Err(e)
    case Ok(k) => if verify(password, rows[k].password) then Ok(k) else Err(Unauthorized(BAD_CREDENTIALS))
  }

  /** `authenticate_user`; `verify` stands for `verify_password`. */
  method AuthenticateUser(users: UsersCRUD, username: string, password: string, verify: (string, string) -> bool)
    returns (r: Result<User>)
    ensures match Authentication(users.rows, username, password, verify)
            case Ok(k) => r == Ok(users.rows[k])
            case Err(e) => r == Err(e)
  {
    var found := users.Get(ByUsername(VText(username)));
    if found.Err? {
      return Err(found.error);
    }
    var user := users.rows[found.value];
    if !verify(password, user.password) {
      return Err(Unauthorized(BAD_CREDENTIALS));
    }
    r := Ok(user);
  }

  /** The lookup `get(token_value=value, is_revoked=False)`. */
  function PresentedFilter(value: string): Filter
  {
    [("token_value", VText(value)), ("is_revoked", VBool(false))]
  }

  /** A row that lookup can return: it carries the value, is not revoked and is not deleted. */
  predicate Presentable(t: RefreshToken, value: string)
  {
    t.tokenValue == value && !t.isRevoked && !t.isDeleted
  }

  lemma PresentedFilterSelects(rows: seq<RefreshToken>, value: string)
    ensures KeysAllowed(PresentedFilter(value), TOKEN_FILTER_KEYS)
    ensures forall i :: 0 <= i < |rows| ==> (Visible(rows[i], PresentedFilter(value)) <==> Presentable(rows[i], value))
  {
    var f := PresentedFilter(value);
    forall i | 0 <= i < |rows|
      ensures Visible(rows[i], f) <==> Presentable(rows[i], value)
    {
      assert Column(rows[i], f[0].0) == Some(VText(rows[i].tokenValue));
      assert Column(rows[i], f[1].0) == Some(VBool(rows[i].isRevoked));
    }
  }

  /** The outcome of `validate_refresh_token(value)` at `now`: the position of
      the one presentable row with that value, unless it has expired. */
  function RefreshCheck(rows: seq<RefreshToken>, value: string, now: Instant): (r: Result<nat>)
    ensures r.Ok? ==>
              && r.value < |rows| && Presentable(rows[r.value], value) && !IsExpired(rows[r.value], now)
              && IsValidFor(rows[r.value], rows[r.value].userId, now)
              && forall i :: 0 <= i < |rows| && Presentable(rows[i], value) ==> i == r.value
    ensures r == Err(NotFound("Token not found")) <==> forall i :: 0 <= i < |rows| ==> !Presentable(rows[i], value)
    ensures r == Err(MultipleResultsFound) <==>
              exists i, j :: 0 <= i < j < |rows| && Presentable(rows[i], value) && Presentable(rows[j], value)
    ensures r.Ok? || r == Err(NotFound("Token not found")) || r == Err(Unauthorized(EXPIRED_TOKEN)) || r == Err(MultipleResultsFound)
  {
    PresentedFilterSelects(rows, value);
    match Lookup(rows, PresentedFilter(value))
    case Err(e) => Err(e)
    case Ok(k) => if IsExpired(rows[k], now) then Err(Unauthorized(EXPIRED_TOKEN)) else Ok(k)
  }

  /** When exactly one presentable row carries the value, validation returns
      it unless it has expired. */
  lemma RefreshCheckUnique(rows: seq<RefreshToken>, value: string, now: Instant, k: nat)
    requires k < |rows| && Presentable(rows[k], value)
    requires forall i :: 0 <= i < |rows| && Presentable(rows[i], value) ==> i == k
    ensures RefreshCheck(rows, value, now) == if IsExpired(rows[k], now) then Err(Unauthorized(EXPIRED_TOKEN)) else Ok(k)
  {
    PresentedFilterSelects(rows, value);
  }

  /** `validate_refresh_token(value)` at `now`. */
  method ValidateRefreshToken(tokens: RefreshTokenCRUD, value: string, now: Instant) returns (r: Result<RefreshToken>)
    ensures match RefreshCheck(tokens.rows, value, now)
            case Ok(k) => r == Ok(tokens.rows[k])
            case Err(e) => r == Err(e)
  {
    var found := tokens.Get(PresentedFilter(value));
    if found.Err? {
      return Err(found.error);
    }
    var token := tokens.rows[found.value];
    if IsExpired(token, now) {
      return Err(Unauthorized(EXPIRED_TOKEN));
    }
    r := Ok(token);
  }

  /** `revoke_refresh_token(token)`: revokes the row with the token's id. */
  method RevokeRefreshToken(tokens: RefreshTokenCRUD, token: RefreshToken) returns (r: Result<RefreshToken>)
    requires tokens.Valid()
    modifies tokens
    ensures tokens.Valid()
    ensures match Lookup(old(tokens.rows), ById(token.id))
            case Ok(k) => tokens.rows == WithRevoked(old(tokens.rows), k) && r == Ok(tokens.rows[k])
            case Err(e) => tokens.rows == old(tokens.rows) && r == Err(e)
  {
    r := tokens.RevokeToken(token.id);
  }

  /** `create_refresh_token(user)` at `now`, with the generated id and value as
      parameters: stores a fresh row for the user and returns its value. */
  method CreateRefreshToken(tokens: RefreshTokenCRUD, user: User, newId: Uuid, newValue: string, now: Instant)
    returns (r: Result<string>)
    requires tokens.Valid()
    modifies tokens
    ensures tokens.Valid()
    ensures HasId(old(tokens.rows), newId) ==> r == Err(IntegrityError) && tokens.rows == old(tokens.rows)
    ensures !HasId(old(tokens.rows), newId) ==>
              && r == Ok(newValue)
              && tokens.rows == old(tokens.rows) + [StoredRow(NewTokenBase(newId, user.id, newValue, now))]
  {
    var created := tokens.Create(NewTokenBase(newId, user.id, newValue, now));
    match created
    case Ok(t) => r := Ok(t.tokenValue);
    case Err(e) => r := Err(e);
  }

  /** At the instant a row expires, validation rejects it as expired although
      the valid-token query still returns it. */
  lemma ExpiryBoundaryMismatch(rows: seq<RefreshToken>, k: nat)
    requires k < |rows| && !rows[k].isRevoked && !rows[k].isDeleted
    requires AtMostOneValid(rows, rows[k].expiresAt)
    requires forall i :: 0 <= i < |rows| && i != k ==> rows[i].tokenValue != rows[k].tokenValue || rows[i].isRevoked || rows[i].isDeleted
    ensures ValidTokenRow(rows, rows[k].userId, rows[k].expiresAt) == Ok(Some(k))
    ensures RefreshCheck(rows, rows[k].tokenValue, rows[k].expiresAt) == Err(Unauthorized(EXPIRED_TOKEN))
  {
    ExpiryBoundaryOverlap(rows, k);
    RefreshCheckUnique(rows, rows[k].tokenValue, rows[k].expiresAt, k);
  }
}
