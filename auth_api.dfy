/** The authentication routes: registration, login, and refresh-token
    rotation. Each handler is a method over the two tables; the table effect
    of its token step is also given as a function on rows, so that the rules
    it keeps can be stated as lemmas across requests. */
module AuthApi {
  import opened Core
  import Config
  import opened UserModel
  import opened UserCrud
  import opened RefreshTokenModel
  import opened RefreshTokenCrud
  import opened Jwt

  /** The response body (`Token`); a claim set stands for the signed access token. */
  datatype TokenPair = TokenPair(accessToken: Payload, refreshToken: string, tokenType: string)

  const BEARER := "bearer"

  /** `TokenData(sub=username).model_dump()`, its `iat` read at `now`. */
  function TokenData(username: string, now: Instant): Payload
  {
    map["sub" := VText(username), "iat" := VTime(now)]
  }

  /** The access-token lifetime the handlers pass: `timedelta(minutes=JWT_ACCESS_TOKEN_EXPIRE_SECS)`,
      in seconds. The setting is read as a number of minutes. */
  const ACCESS_TOKEN_DELTA: int := Config.JWT_ACCESS_TOKEN_EXPIRE_SECS * 60

  /** The claims of the access token both token routes issue at `now`. */
  function AccessClaims(username: string, now: Instant): Payload
  {
    CreateJwtToken(TokenData(username, now), ACCESS_TOKEN_DELTA, now)
  }

  /** The access token names the user, records the instant of issue, and
      expires 300 minutes later. */
  lemma AccessClaimsContent(username: string, now: Instant)
    ensures AccessClaims(username, now) == map["sub" := VText(username), "iat" := VTime(now), "exp" := VTime(now + 18000)]
  {
    var claims := AccessClaims(username, now);
    assert claims.Keys == {"sub", "iat", "exp"};
  }

  /** Because the setting is read as minutes, an access token outlives every
      refresh token issued at the same instant. */
  lemma AccessOutlivesRefresh(username: string, id: Uuid, userId: Uuid, tokenValue: string, now: Instant)
    ensures AccessClaims(username, now)["exp"].at > StoredRow(NewTokenBase(id, userId, tokenValue, now)).expiresAt
    ensures IsExpired(StoredRow(NewTokenBase(id, userId, tokenValue, now)), AccessClaims(username, now)["exp"].at - 1)
  {
  }

  /** An access token issued for a stored user yields that same user back
      through `get_current_user`. This holds while the token is unexpired,
      that is, while decoding returns its claims: a decode that refuses an
      expired token gives `None`, and so 401. */
  lemma AccessTokenIdentifiesUser(rows: seq<User>, k: nat, now: Instant)
    requires FieldsUnique(rows) && k < |rows|
    ensures CurrentUser(rows, Some(AccessClaims(rows[k].username, now))) == Ok(k)
  {
    var decoded := Some(AccessClaims(rows[k].username, now));
    assert SubjectClaim(decoded) == Ok(VText(rows[k].username));
    LookupByUsername(rows, rows[k].username);
  }

  /** The refresh token a successful login returns, as a table transition:
      the user's valid row is reused; when there is none a fresh row is added. */
  function ReuseOrCreate(rows: seq<RefreshToken>, userId: Uuid, newId: Uuid, newValue: string, now: Instant)
    : (Result<string>, seq<RefreshToken>)
  {
    match ValidTokenRow(rows, userId, now)
    case Err(e) => (Err(e), rows)
    case Ok(Some(j)) => (Ok(rows[j].tokenValue), rows)
    case Ok(None) =>
      if HasId(rows, newId) then (Err(IntegrityError), rows)
      else (Ok(newValue), rows + [StoredRow(NewTokenBase(newId, userId, newValue, now))])
  }

  /** The value of the user's only valid row, if there is exactly one. */
  function LiveValue(rows: seq<RefreshToken>, userId: Uuid, now: Instant): Option<string>
  {
    match ValidTokenRow(rows, userId, now)
    case Ok(Some(j)) => Some(rows[j].tokenValue)
    case _ => None
  }

  /** Login keeps the table's primary key and the at-most-one-valid rule; it
      leaves existing rows as they were and adds at most one; and the value it
      returns is then the user's one valid token. */
  lemma LoginKeepsRule(rows: seq<RefreshToken>, userId: Uuid, newId: Uuid, newValue: string, now: Instant)
    requires IdsDistinct(rows) && AtMostOneValid(rows, now)
    ensures var (out, rows') := ReuseOrCreate(rows, userId, newId, newValue, now);
      && IdsDistinct(rows') && AtMostOneValid(rows', now)
      && |rows| <= |rows'| <= |rows| + 1 && rows'[..|rows|] == rows
      && (out.Ok? ==> LiveValue(rows', userId, now) == Some(out.value))
      && (out.Err? ==> out.error == IntegrityError && rows' == rows)
  {
    AtMostOneValidQueryOk(rows, userId, now);
    assert rows[..|rows|] == rows;
    if ValidTokenRow(rows, userId, now) == Ok(None) && !HasId(rows, newId) {
      var t := StoredRow(NewTokenBase(newId, userId, newValue, now));
      assert IsValidFor(t, userId, now);
      AddForUserWithoutValid(rows, t, now);
      AppendFreshId(rows, t);
    }
  }

  /** When the user already has a valid token, login returns that token's
      value and adds no row; when the user has none (and the new id is free),
      login appends exactly one fresh row for the user and returns its value. */
  lemma LoginReusesOrCreates(rows: seq<RefreshToken>, userId: Uuid, newId: Uuid, newValue: string, now: Instant)
    ensures LiveValue(rows, userId, now).Some? ==>
              ReuseOrCreate(rows, userId, newId, newValue, now) == (Ok(LiveValue(rows, userId, now).value), rows)
    ensures ValidTokenRow(rows, userId, now) == Ok(None) && !HasId(rows, newId) ==>
              ReuseOrCreate(rows, userId, newId, newValue, now)
                == (Ok(newValue), rows + [StoredRow(NewTokenBase(newId, userId, newValue, now))])
  {
  }

  /** After a successful login the user is referenced by a token row, so
      deleting that user is refused (`UsersCRUD.Delete` with these owners). */
  lemma LoginReferencesUser(rows: seq<RefreshToken>, userId: Uuid, newId: Uuid, newValue: string, now: Instant)
    requires IdsDistinct(rows) && AtMostOneValid(rows, now)
    requires ReuseOrCreate(rows, userId, newId, newValue, now).0.Ok?
    ensures userId in TokenOwners(ReuseOrCreate(rows, userId, newId, newValue, now).1)
  {
    var rows' := ReuseOrCreate(rows, userId, newId, newValue, now).1;
    LoginKeepsRule(rows, userId, newId, newValue, now);
    var j := ValidTokenRow(rows', userId, now).value.value;
    assert IsValidFor(rows'[j], userId, now);
  }

  /** A second login by the same user at the same instant changes nothing and
      returns the same refresh token as the first. */
  lemma LoginTwiceReuses(rows: seq<RefreshToken>, userId: Uuid, newId: Uuid, newValue: string, newId2: Uuid, newValue2: string, now: Instant)
    requires IdsDistinct(rows) && AtMostOneValid(rows, now)
    requires ReuseOrCreate(rows, userId, newId, newValue, now).0.Ok?
    ensures var (out, rows') := ReuseOrCreate(rows, userId, newId, newValue, now);
      ReuseOrCreate(rows', userId, newId2, newValue2, now) == (out, rows')
  {
    LoginKeepsRule(rows, userId, newId, newValue, now);
  }

  /** The table transition of a successful refresh: row `k` (the presented
      token) is revoked and committed, then a fresh row for `userId` is added;
      when the new id clashes the revoke stays committed. */
  function Rotate(rows: seq<RefreshToken>, k: nat, userId: Uuid, newId: Uuid, newValue: string, now: Instant)
    : (Result<string>, seq<RefreshToken>)
    requires k < |rows|
  {
    var revoked := WithRevoked(rows, k);
    if HasId(revoked, newId) then (Err(IntegrityError), revoked)
    else (Ok(newValue), revoked + [StoredRow(NewTokenBase(newId, userId, newValue, now))])
  }

  /** Rotation keeps the primary key, touches only the presented row and adds
      at most one; revokes the presented row in every outcome. */
  lemma RotationShape(rows: seq<RefreshToken>, k: nat, userId: Uuid, newId: Uuid, newValue: string, now: Instant)
    requires IdsDistinct(rows) && k < |rows|
    ensures var (out, rows') := Rotate(rows, k, userId, newId, newValue, now);
      && IdsDistinct(rows')
      && |rows| <= |rows'| <= |rows| + 1
      && rows'[k] == rows[k].(isRevoked := true)
      && (forall i :: 0 <= i < |rows| && i != k ==> rows'[i] == rows[i])
      && (out.Ok? <==> |rows'| == |rows| + 1)
      && (out.Ok? ==> out.value == newValue && rows'[|rows|] == StoredRow(NewTokenBase(newId, userId, newValue, now)))
      && (out.Err? ==> out.error == IntegrityError)
  {
    var revoked := WithRevoked(rows, k);
    assert forall i :: 0 <= i < |rows| ==> revoked[i].id == rows[i].id;
    if !HasId(revoked, newId) {
      var rows' := revoked + [StoredRow(NewTokenBase(newId, userId, newValue, now))];
      assert forall i :: 0 <= i < |revoked| ==> rows'[i] == revoked[i];
    }
  }

  /** Once rotated, the presented value is refused at any later instant: no
      unrevoked row carries it any more. */
  lemma RotationRejectsReuse(rows: seq<RefreshToken>, presented: string, k: nat, userId: Uuid, newId: Uuid, newValue: string, now: Instant, later: Instant)
    requires RefreshCheck(rows, presented, now) == Ok(k)
    requires newValue != presented
    ensures RefreshCheck(Rotate(rows, k, userId, newId, newValue, now).1, presented, later) == Err(NotFound("Token not found"))
  {
    var rows' := Rotate(rows, k, userId, newId, newValue, now).1;
    forall i | 0 <= i < |rows'|
      ensures !Presentable(rows'[i], presented)
    {
      if i < |rows| && i != k {
        assert rows'[i] == rows[i];
      }
    }
  }

  /** When the presented row is the caller's valid row, rotation keeps the
      at-most-one-valid rule and the new value becomes the caller's one valid token. */
  lemma RotationKeepsRuleForOwner(rows: seq<RefreshToken>, k: nat, userId: Uuid, newId: Uuid, newValue: string, now: Instant)
    requires AtMostOneValid(rows, now)
    requires k < |rows| && IsValidFor(rows[k], userId, now)
    ensures AtMostOneValid(Rotate(rows, k, userId, newId, newValue, now).1, now)
    ensures Rotate(rows, k, userId, newId, newValue, now).0.Ok? ==>
              LiveValue(Rotate(rows, k, userId, newId, newValue, now).1, userId, now) == Some(newValue)
  {
    var t := StoredRow(NewTokenBase(newId, userId, newValue, now));
    assert IsValidFor(t, userId, now);
    RevokeKeepsRule(rows, k, now);
    RotationKeepsRule(rows, k, t, now);
  }

  /** After a rotation, a next refresh at any instant before the new row
      expires accepts the new value, provided no other unrevoked row carries it. */
  lemma RotatedValueIsAccepted(rows: seq<RefreshToken>, k: nat, userId: Uuid, newId: Uuid, newValue: string, now: Instant, later: Instant)
    requires k < |rows| && Rotate(rows, k, userId, newId, newValue, now).0.Ok?
    requires forall i :: 0 <= i < |rows| && i != k ==> !Presentable(rows[i], newValue)
    requires now <= later < now + Config.JWT_REFRESH_TOKEN_EXPIRE_SECS
    ensures RefreshCheck(Rotate(rows, k, userId, newId, newValue, now).1, newValue, later) == Ok(|rows|)
  {
    var rows' := Rotate(rows, k, userId, newId, newValue, now).1;
    assert forall i :: 0 <= i < |rows| && i != k ==> rows'[i] == rows[i];
    assert rows'[|rows|] == StoredRow(NewTokenBase(newId, userId, newValue, now));
    RefreshCheckUnique(rows', newValue, later, |rows|);
  }

  /** Without an ownership check the rule can break: a caller who presents
      another user's token is issued a second valid row. */
  lemma ForeignTokenBreaksRule()
    ensures var rows := [RefreshToken(1, 10, "a", 100, 0, false, false), RefreshToken(2, 20, "b", 100, 0, false, false)];
      && AtMostOneValid(rows, 50)
      && RefreshCheck(rows, "b", 50) == Ok(1)
      && Rotate(rows, 1, 10, 3, "c", 50).0 == Ok("c")
      && !AtMostOneValid(Rotate(rows, 1, 10, 3, "c", 50).1, 50)
  {
    var rows := [RefreshToken(1, 10, "a", 100, 0, false, false), RefreshToken(2, 20, "b", 100, 0, false, false)];
    RefreshCheckUnique(rows, "b", 50, 1);
    var rows' := Rotate(rows, 1, 10, 3, "c", 50).1;
    assert !HasId(WithRevoked(rows, 1), 3);
    assert IsValidFor(rows'[0], rows'[0].userId, 50) && IsValidFor(rows'[2], rows'[0].userId, 50);
  }

  /** `register_user`: creates the user. */
  method RegisterUser(users: UsersCRUD, data: UserCreate, newId: Uuid) returns (r: Result<User>)
    requires users.Valid()
    modifies users
    ensures users.Valid()
    ensures Clashes(old(users.rows), data) ==> r == Err(BadRequest(DUPLICATE_USER)) && users.rows == old(users.rows)
    ensures !Clashes(old(users.rows), data) && HasUserId(old(users.rows), newId) ==>
              r == Err(IntegrityError) && users.rows == old(users.rows)
    ensures !Clashes(old(users.rows), data) && !HasUserId(old(users.rows), newId) ==>
              r == Ok(NewUser(newId, data)) && users.rows == old(users.rows) + [NewUser(newId, data)]
  {
    r := users.Create(data, newId);
  }

  /** The response the token routes build from a refresh-token outcome. */
  function Respond(username: string, now: Instant, out: Result<string>): Result<TokenPair>
  {
    match out
    case Ok(v) => Ok(TokenPair(AccessClaims(username, now), v, BEARER))
    case Err(e) => Err(e)
  }

  /** The outcome of `login_for_access_token` at `now`: the response and the
      refresh-token table afterwards. */
  function Login(users: seq<User>, tokens: seq<RefreshToken>, username: string, password: string,
                 verify: (string, string) -> bool, newId: Uuid, newValue: string, now: Instant)
    : (Result<TokenPair>, seq<RefreshToken>)
  {
    match Authentication(users, username, password, verify)
    case Err(e) => (Err(e), tokens)
    case Ok(k) =>
      var (out, tokens') := ReuseOrCreate(tokens, users[k].id, newId, newValue, now);
      (Respond(users[k].username, now, out), tokens')
  }

  /** A successful login returns an access token for the user it authenticated
      and a refresh token that is then that user's one valid token; it keeps the
      rule and the primary key, and a failed login leaves the table as it was. */
  lemma LoginProperties(users: seq<User>, tokens: seq<RefreshToken>, username: string, password: string,
                        verify: (string, string) -> bool, newId: Uuid, newValue: string, now: Instant)
    requires FieldsUnique(users) && IdsDistinct(tokens) && AtMostOneValid(tokens, now)
    ensures var (r, tokens') := Login(users, tokens, username, password, verify, newId, newValue, now);
      && IdsDistinct(tokens') && AtMostOneValid(tokens', now)
      && (r.Err? ==> tokens' == tokens)
      && (r.Ok? ==>
            && CurrentUser(users, Some(r.value.accessToken)) == Authentication(users, username, password, verify)
            && r.value.tokenType == BEARER
            && exists k :: 0 <= k < |users| && users[k].username == username && verify(password, users[k].password)
                 && LiveValue(tokens', users[k].id, now) == Some(r.value.refreshToken))
  {
    match Authentication(users, username, password, verify)
    case Err(e) =>
    case Ok(k) =>
      LoginKeepsRule(tokens, users[k].id, newId, newValue, now);
      AccessTokenIdentifiesUser(users, k, now);
  }

  /** `login_for_access_token` at `now`: checks the credentials, then returns
      an access token and the user's valid refresh token, creating one when the
      user has none. */
  method LoginForAccessToken(users: UsersCRUD, tokens: RefreshTokenCRUD, username: string, password: string,
                             verify: (string, string) -> bool, newId: Uuid, newValue: string, now: Instant)
    returns (r: Result<TokenPair>)
    requires users.Valid() && tokens.Valid()
    modifies tokens
    ensures tokens.Valid()
    ensures (r, tokens.rows) == Login(users.rows, old(tokens.rows), username, password, verify, newId, newValue, now)
  {
    var auth := AuthenticateUser(users, username, password, verify);
    if auth.Err? {
      return Err(auth.error);
    }
    var user := auth.value;
    var accessToken := AccessClaims(user.username, now);
    var refreshToken := tokens.GetValidToken(user.id, now);
    if refreshToken.Err? {
      return Err(refreshToken.error);
    }
    var value: string;
    if refreshToken.value.None? {
      var created := CreateRefreshToken(tokens, user, newId, newValue, now);
      if created.Err? {
        return Err(created.error);
      }
      value := created.value;
    } else {
      value := refreshToken.value.value;
    }
    r := Ok(TokenPair(accessToken, value, BEARER));
  }

  /** The outcome of `refresh_token` at `now`: the response and the
      refresh-token table afterwards. */
  function RefreshOutcome(users: seq<User>, tokens: seq<RefreshToken>, decoded: Option<Payload>, presented: string,
                          newId: Uuid, newValue: string, now: Instant)
    : (Result<TokenPair>, seq<RefreshToken>)
  {
    match CurrentUser(users, decoded)
    case Err(e) => (Err(e), tokens)
    case Ok(u) =>
      match RefreshCheck(tokens, presented, now)
      case Err(e) => (Err(e), tokens)
      case Ok(k) =>
        var (out, tokens') := Rotate(tokens, k, users[u].id, newId, newValue, now);
        (Respond(users[u].username, now, out), tokens')
  }

  /** The presented token, when it is accepted, belongs to the caller. */
  ghost predicate PresentedByOwner(users: seq<User>, tokens: seq<RefreshToken>, decoded: Option<Payload>, presented: string, now: Instant)
  {
    match CurrentUser(users, decoded)
    case Err(_) => true
    case Ok(u) =>
      match RefreshCheck(tokens, presented, now)
      case Err(_) => true
      case Ok(k) => tokens[k].userId == users[u].id
  }

  /** A refresh keeps the primary key; a refused one leaves the table as it
      was; an accepted one revokes the presented token for good, issues an
      access token for the caller, and keeps the rule when the caller owns the
      presented token. The access token leads back to the caller while it is
      unexpired, that is, while decoding returns its claims. */
  lemma RefreshProperties(users: seq<User>, tokens: seq<RefreshToken>, decoded: Option<Payload>, presented: string,
                          newId: Uuid, newValue: string, now: Instant, later: Instant)
    requires FieldsUnique(users) && IdsDistinct(tokens)
    ensures var (r, tokens') := RefreshOutcome(users, tokens, decoded, presented, newId, newValue, now);
      && IdsDistinct(tokens')
      && (CurrentUser(users, decoded).Err? || RefreshCheck(tokens, presented, now).Err? ==> tokens' == tokens && r.Err?)
      && (r.Ok? ==> CurrentUser(users, Some(r.value.accessToken)) == CurrentUser(users, decoded))
      && (r.Ok? && newValue != presented ==> RefreshCheck(tokens', presented, later) == Err(NotFound("Token not found")))
      && (AtMostOneValid(tokens, now) && PresentedByOwner(users, tokens, decoded, presented, now) ==> AtMostOneValid(tokens', now))
  {
    match CurrentUser(users, decoded)
    case Err(e) =>
    case Ok(u) =>
      match RefreshCheck(tokens, presented, now)
      case Err(e) =>
      case Ok(k) =>
        RotationShape(tokens, k, users[u].id, newId, newValue, now);
        AccessTokenIdentifiesUser(users, u, now);
        if newValue != presented {
          RotationRejectsReuse(tokens, presented, k, users[u].id, newId, newValue, now, later);
        }
        if AtMostOneValid(tokens, now) && tokens[k].userId == users[u].id {
          RotationKeepsRuleForOwner(tokens, k, users[u].id, newId, newValue, now);
        }
  }

  /** `refresh_token` at `now`: resolves the caller from the access token,
      validates the presented refresh token, revokes it, and issues a new
      refresh token and access token. */
  method Refresh(users: UsersCRUD, tokens: RefreshTokenCRUD, decoded: Option<Payload>, presented: string,
                 newId: Uuid, newValue: string, now: Instant)
    returns (r: Result<TokenPair>)
    requires users.Valid() && tokens.Valid()
    modifies tokens
    ensures tokens.Valid()
    ensures (r, tokens.rows) == RefreshOutcome(users.rows, old(tokens.rows), decoded, presented, newId, newValue, now)
  {
    var user := GetCurrentUser(users, decoded);
    if user.Err? {
      return Err(user.error);
    }
    var token := ValidateRefreshToken(tokens, presented, now);
    if token.Err? {
      return Err(token.error);
    }
    ghost var u := CurrentUser(users.rows, decoded).value;
    ghost var k := RefreshCheck(tokens.rows, presented, now).value;
    RefreshTokenCrud.LookupById(tokens.rows, token.value.id);
    var revoked := RevokeRefreshToken(tokens, token.value);
    // The row was just found by its value, and ids are distinct, so the revoke finds it.
    assert revoked.Ok?;
    var created := CreateRefreshToken(tokens, user.value, newId, newValue, now);
    if created.Err? {
      return Err(created.error);
    }
    var accessToken := AccessClaims(user.value.username, now);
    r := Ok(TokenPair(accessToken, created.value, BEARER));
  }
}
