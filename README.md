# Refresh-token sessions and user table rules of fastapi-boilerplate

This project models the authentication core of the fastapi-boilerplate
service in Dafny and proves properties about it. The service stores users and
refresh tokens in two tables. Logging in returns a signed access token and a
refresh token, and a refresh exchanges the presented refresh token for a new
one (rotation).

The model replaces the database by two in-memory tables. Each table is a class
over a sequence of rows: `UsersCRUD` and `RefreshTokenCRUD`. A stored ORM
object is identified by its row position, so revoking or patching an object
updates that row in place. Each handler and CRUD method is a Dafny method, and
its contract ties the result and the new table to a function of the old
table. `Lookup`, `ValidTokenRow`, `RefreshCheck`, `Authentication`, `Login`
and `RefreshOutcome` are such functions, and the lemmas are stated about them.
The rule that holds the design together is that no user has two valid refresh
tokens at once (`AtMostOneValid`), because `get_valid_token` reads the user's
token with `scalar_one_or_none`. The lemmas show:

- login keeps the rule;
- rotation keeps it when the presented token belongs to the caller;
- a caller who already holds a valid token and presents another user's token ends up with two, as a concrete pair of tables shows.

Conventions:

- The clock is one parameter `now` per request, in seconds.
- The generated ids and token values are parameters, and the model does not assume a token value is unique.
- The password hash and the password check are function parameters.
- Signing is left out: an access token is its claim map, and the decode result is an input of type `Option<Payload>`, where `None` means decoding failed.
- Errors are values of `Core.Error`:
  - `BadRequest` is HTTP 400; `Unauthorized` is 401; `NotFound` is 404.
  - `MultipleResultsFound` is the ORM error for a query that expected one row and found several.
  - `IntegrityError` is a database constraint violation; `TypeError` is a Python call error.

Modules, one per file:

- `Core`: values, filters, errors, the key check and the generic select.
- `Config`: the two lifetimes.
- `RefreshTokenModel` and `RefreshTokenCrud`: the refresh-token record and table.
- `UserModel` and `UserCrud`: the user record, the patch, and the user table.
- `Jwt`: the helpers of the session issuer.
- `AuthApi`: the routes.

Points where the code does something other than its names or its evident purpose suggest; the model follows the code:

- The access-token setting's name, `JWT_ACCESS_TOKEN_EXPIRE_SECS`, says seconds, but it is passed as `timedelta(minutes=...)`. An access token therefore lives for 300 minutes, 18000 seconds, which is longer than the refresh token's 10080 seconds.
- At the instant `expires_at == now` a token counts as expired (`<=`), yet the valid-token query still returns it (`>=`). Both comparisons are modelled as written.
- Login with an unknown username fails with the store's 404 "User not found", not with 401.
- The login route looks the user up by username only, so an email in the username field gets 404; and `username` is a required field of the registration record. The model follows the code in both cases.
- A user whom some token row references cannot be deleted: the `user_id` foreign key has no `ondelete`, so the database refuses the delete with an integrity error. Revoked and soft-deleted token rows stay in the table, so any user who has ever logged in is referenced (`LoginReferencesUser`, `FlagsKeepOwners`).
- A refresh commits the revoke before it creates the replacement, so a create that fails leaves the presented token revoked and no new one (`Rotate`); the code does not roll back the committed revoke.

## Model

| member | source | states |
|---|---|---|
| Core.CheckKeys | app/auth/crud/refresh_token.py:26-32 | the key loop accepts a filter exactly when every key is in the allowed list, and otherwise some key is outside it |
| Core.Positions | app/auth/crud/refresh_token.py:34-38 | the select returns exactly the positions of the rows satisfying the WHERE clause, in increasing order |
| Core.SelectOne | app/auth/crud/refresh_token.py:37-39 | a select read with `scalar_one_or_none` gives none iff no row satisfies the clause, the only satisfying row when there is one, and MultipleResultsFound iff two rows satisfy it |
| RefreshTokenModel.FreshTokenDefaults | app/auth/models/refresh_token.py:15-32 | a fresh row keeps the given owner and value, is issued at `now`, expires at `now + 10080`, and is neither revoked nor deleted (soft-delete default from app/core/models.py) |
| RefreshTokenModel.FreshTokenNotExpired | app/auth/models/refresh_token.py:18-22 | a fresh row is unexpired at every instant before its lifetime runs out, including its creation instant, and expired once the lifetime has run out |
| RefreshTokenModel.ExpiryIsPermanent | app/auth/models/refresh_token.py:38-41 | `is_expired` is `expires_at <= now`, so once true it stays true as the clock advances |
| RefreshTokenCrud.Lookup | app/auth/crud/refresh_token.py:25-46 | `get` fails with 400 "Invalid key" iff some key is not allowed; returns a row that is not soft-deleted and matches every filter, and is the only such row; fails with 404 iff no row matches; fails with MultipleResultsFound iff two rows match |
| RefreshTokenCrud.ValidTokenRow | app/auth/crud/refresh_token.py:48-57 | the valid-token query returns none iff no row of the user is unrevoked, undeleted and has `expires_at >= now`; otherwise it returns the only such row, or fails when there are two |
| RefreshTokenCrud.RefreshTokenCRUD.constructor | app/auth/crud/refresh_token.py:15-16 | a new store starts with an empty table |
| RefreshTokenCrud.RefreshTokenCRUD.Create | app/auth/crud/refresh_token.py:18-23 | appends exactly the row built from the data and leaves existing rows unchanged; a clashing primary key is refused and adds nothing |
| RefreshTokenCrud.RefreshTokenCRUD.Get | app/auth/crud/refresh_token.py:25-46 | the lookup method returns what `Lookup` specifies, checking the keys before reading any row |
| RefreshTokenCrud.RefreshTokenCRUD.GetValidToken | app/auth/crud/refresh_token.py:48-57 | returns the token value of the row `ValidTokenRow` finds, none when there is none, and the error otherwise |
| RefreshTokenCrud.RefreshTokenCRUD.RevokeToken | app/auth/crud/refresh_token.py:59-65 | sets `is_revoked` on exactly the row found by id, and no other field or row changes; a missing or soft-deleted id fails with 404 and changes nothing |
| RefreshTokenCrud.RefreshTokenCRUD.Delete | app/auth/crud/refresh_token.py:67-74 | with `get(id=token_id)` as intended: sets `is_deleted` on exactly the row with that id and returns true; a missing id fails with 404 and changes nothing |
| RefreshTokenCrud.RefreshTokenCRUD.DeleteAsWritten | app/auth/crud/refresh_token.py:67-68 | as written, the positional argument makes the call fail with a TypeError before the table is read or changed |
| RefreshTokenCrud.LookupById | app/auth/crud/refresh_token.py:60 | with distinct ids, `get(id=...)` finds exactly the live row with that id, and fails with 404 when the id is missing or soft-deleted |
| RefreshTokenCrud.RevokeIsIdempotent | app/auth/crud/refresh_token.py:59-65 | a revoked row is still found by id, because the lookup does not filter on `is_revoked`, and a second revoke leaves the table as the first did |
| RefreshTokenCrud.DeletedRowIsInvisible | app/auth/crud/refresh_token.py:34-53 | after the soft delete of a row, neither any lookup nor the valid-token query returns it |
| RefreshTokenCrud.DeleteTwiceFails | app/auth/crud/refresh_token.py:67-74 | deleting the same id a second time fails with 404 |
| RefreshTokenCrud.AtMostOneValidQueryOk | app/auth/crud/refresh_token.py:56 | under the at-most-one-valid rule the valid-token query never fails |
| RefreshTokenCrud.AtMostOneValidLater | app/auth/crud/refresh_token.py:52 | the rule, once true, stays true as the clock advances |
| RefreshTokenCrud.RevokeKeepsRule | app/auth/crud/refresh_token.py:59-65 | revoking a row keeps the at-most-one-valid rule |
| RefreshTokenCrud.TokenOwners | app/auth/models/refresh_token.py:16 | exactly the user ids some token row references through `user_id`, revoked and soft-deleted rows included |
| RefreshTokenCrud.FlagsKeepOwners | app/auth/crud/refresh_token.py:59-74 | a revoke or a soft delete leaves the set of referenced users unchanged |
| RefreshTokenCrud.DeleteKeepsRule | app/auth/crud/refresh_token.py:67-74 | soft-deleting a row keeps the at-most-one-valid rule |
| RefreshTokenCrud.AppendFreshId | app/auth/crud/refresh_token.py:18-23 | appending a row whose id is new keeps the primary key and leaves the existing rows in place |
| RefreshTokenCrud.AddForUserWithoutValid | app/auth/crud/refresh_token.py:18-57 | adding a row for a user with no valid row keeps the rule, and a valid new row is then what the query returns |
| RefreshTokenCrud.RotationKeepsRule | app/auth/crud/refresh_token.py:18-65 | revoking a user's valid row and adding one for the same user keeps the rule, and the new row becomes that user's only valid row |
| RefreshTokenCrud.ExpiryBoundaryOverlap | app/auth/crud/refresh_token.py:52 | at `now == expires_at` a row is expired and is still returned by the valid-token query |
| UserModel.NewUserDefaults | app/auth/models/user.py:19-33 | a new user keeps the registration fields, stores `hash(plaintext)` as its password, and starts neither admin nor active |
| UserModel.CheckIfAtLeastOne | app/auth/models/user.py:72-82 | a patch is accepted, unchanged, iff the username or email is non-empty or a flag is true; otherwise it fails with the 400 message |
| UserModel.EmptyPatchRejected | app/auth/models/user.py:74 | a patch with no fields, or only the id, is rejected |
| UserModel.FalseFlagsRejected | app/auth/models/user.py:74 | a patch that sets only flags to false is rejected, because the check is on truthiness |
| UserModel.PatchItemsApplyPatch | app/auth/crud/user.py:80-82 | the `setattr` loop over the dumped fields, run in order, matches the field-by-field patch: a field given in the patch takes its value and every other field keeps its own |
| UserModel.PatchIsIdempotent | app/auth/crud/user.py:80-82 | applying the same patch twice gives what applying it once gives |
| UserModel.AcceptedPatchHasItems | app/auth/models/user.py:72-82 | an accepted patch always names at least one column to set |
| UserCrud.UserLookup | app/auth/crud/user.py:36-65 | `get` fails with 400 iff some key is not allowed; returns the only row matching every filter; fails with 404 iff no row matches; fails with MultipleResultsFound iff two match |
| UserCrud.WithoutId | app/auth/crud/user.py:100 | the delete statement keeps exactly the rows whose id differs, and keeps the unique columns unique |
| UserCrud.UsersCRUD.constructor | app/auth/crud/user.py:14-15 | a new store starts with an empty table |
| UserCrud.UsersCRUD.CheckUserUniqueFields | app/auth/crud/user.py:107-125 | passes iff no user has the same email or the same username, and fails with 400 otherwise |
| UserCrud.UsersCRUD.Create | app/auth/crud/user.py:17-34 | a clash on email or username fails with 400 and adds nothing; otherwise exactly one user with the given fields and default flags is appended |
| UserCrud.UsersCRUD.Get | app/auth/crud/user.py:36-65 | the lookup method returns what `UserLookup` specifies, checking the keys first |
| UserCrud.UsersCRUD.Update | app/auth/crud/user.py:67-88 | an unknown id fails with 404 and changes nothing; otherwise the row becomes the field-by-field patch of itself, keeping its id, unless that would break a unique column |
| UserCrud.UsersCRUD.Delete | app/auth/crud/user.py:90-105 | fails with IntegrityError and changes nothing when the user exists and a token row references the id; otherwise removes every user with that id and returns true, also when no such user existed |
| UserCrud.LookupById | app/auth/crud/user.py:79 | with unique ids, `get(id=...)` finds exactly the row with that id and fails with 404 when there is none |
| UserCrud.LookupByUsername | app/auth/jwt.py:22 | with unique usernames, `get(username=...)` finds exactly that user and fails with 404 when there is none |
| UserCrud.DeletedUserNotFound | app/auth/crud/user.py:100-105 | after a delete no user with that id is found |
| UserCrud.RegisteredUserIsFound | app/auth/crud/user.py:17-34 | a successful registration keeps the columns unique and the new user is found by username |
| Jwt.CreateJwtToken | app/auth/jwt.py:55-60 | the payload is `data` with `exp = now + delta` added or replaced, and every other claim is kept |
| Jwt.SubjectClaim | app/auth/jwt.py:40-47 | the claim check passes iff decoding succeeded and `sub` is present and not null, and otherwise fails with 401 "Could not validate credentials" |
| Jwt.CurrentUser | app/auth/jwt.py:32-52 | a failed claim check gives 401; a success names the user whose username is `sub`; an unknown name fails with the store's 404; with unique usernames a known name succeeds |
| Jwt.SubjectLookup | app/auth/jwt.py:49 | the lookup by `sub` matches exactly the rows whose username equals `sub` |
| Jwt.GetCurrentUser | app/auth/jwt.py:32-52 | returns the user `CurrentUser` names, or its error |
| Jwt.Authentication | app/auth/jwt.py:21-29 | a success names a user with that username whose hash verifies; an unknown username fails with the store's 404; a known one gives that user iff the password verifies, and 401 "Incorrect username or password" otherwise |
| Jwt.AuthenticateUser | app/auth/jwt.py:21-29 | returns the user `Authentication` names, or its error |
| Jwt.PresentedFilterSelects | app/auth/jwt.py:66 | the filter `token_value=v, is_revoked=False` selects exactly the unrevoked, undeleted rows carrying `v` |
| Jwt.RefreshCheck | app/auth/jwt.py:63-71 | fails with 404 iff no unrevoked, undeleted row carries the value; fails with MultipleResultsFound iff two such rows carry it; a success is the only such row, is unexpired and is valid for its owner; every outcome is a success, 404, 401 "Token has expired" or MultipleResultsFound |
| Jwt.RefreshCheckUnique | app/auth/jwt.py:66-71 | when exactly one unrevoked, undeleted row carries the value, validation fails with 401 "Token has expired" if that row has expired and returns it otherwise |
| Jwt.ValidateRefreshToken | app/auth/jwt.py:63-71 | returns the row `RefreshCheck` names, or its error |
| Jwt.RevokeRefreshToken | app/auth/jwt.py:74-77 | revokes exactly the row found by the token's id |
| Jwt.CreateRefreshToken | app/auth/jwt.py:80-86 | appends one fresh row for `user.id` and returns its token value; a clashing id is refused and adds nothing |
| Jwt.ExpiryBoundaryMismatch | app/auth/jwt.py:67 | at `now == expires_at` the valid-token query returns the row, while validation rejects the same value as expired |
| AuthApi.AccessClaimsContent | app/auth/api.py:46-50 | the access token carries exactly `sub = username`, `iat = now` and `exp = now + 18000`, the setting read as minutes |
| AuthApi.AccessOutlivesRefresh | app/auth/api.py:49 | an access token issued at `now` outlives a refresh token issued at `now` |
| AuthApi.AccessTokenIdentifiesUser | app/auth/api.py:46-50 | for any stored user, the issued access token leads `get_current_user` back to that same user |
| AuthApi.LoginKeepsRule | app/auth/api.py:51-53 | login keeps the primary key and the rule, changes no existing row, adds at most one, and the value it returns is then the user's one valid token |
| AuthApi.LoginReusesOrCreates | app/auth/api.py:51-53 | a user who already has a valid token gets that token's value back and the table is unchanged; a user with none (and a free new id) gets the new value, and exactly one fresh row for them is appended |
| AuthApi.LoginReferencesUser | app/auth/api.py:51-53 | after a successful login the user's id is referenced by a token row, so deleting the user is refused |
| AuthApi.LoginTwiceReuses | app/auth/api.py:51-53 | a second login at the same instant changes nothing and returns the same refresh token |
| AuthApi.RotationShape | app/auth/api.py:64-69 | rotation revokes the presented row in every outcome, leaves every other row unchanged, and adds exactly one fresh row for the caller when it succeeds |
| AuthApi.RotationRejectsReuse | app/auth/api.py:64-69 | after a rotation the old value fails validation with 404 at any time, provided the new value differs |
| AuthApi.RotationKeepsRuleForOwner | app/auth/api.py:64-69 | when the presented row is the caller's valid row, rotation keeps the rule and the new value becomes the caller's one valid token |
| AuthApi.RotatedValueIsAccepted | app/auth/api.py:69 | a next refresh at any instant before the new row expires accepts the new value, provided no other unrevoked row carries it |
| AuthApi.ForeignTokenBreaksRule | app/auth/api.py:64-69 | refresh does not compare owners: a caller presenting another user's token comes away with two valid tokens |
| AuthApi.RegisterUser | app/auth/api.py:26-29 | registration returns the user `UsersCRUD.create` creates, or its error |
| AuthApi.LoginProperties | app/auth/api.py:37-55 | a successful login returns a bearer access token that leads back to the authenticated user and a refresh token that is that user's one valid token; the primary key and the rule are kept; a failed login leaves the table unchanged |
| AuthApi.LoginForAccessToken | app/auth/api.py:37-55 | the handler's response and new table are those of `Login` |
| AuthApi.RefreshProperties | app/auth/api.py:58-75 | a refused refresh changes nothing; an accepted one issues an access token for the same caller and makes the old value fail at any later time; the rule is kept when the caller owns the presented token |
| AuthApi.Refresh | app/auth/api.py:58-75 | the handler's response and new table are those of `RefreshOutcome`: resolve the caller, validate, revoke, create |

## Left out

- HTTP transport: routing, dependency injection, the bearer-token extraction and response headers. Errors are outcome values.
- Database sessions, `commit` and `refresh`. The tables are in memory, and each CRUD call is atomic.
- Concurrency, row locking and rollback. A refresh whose create fails after the revoke has committed is modelled as that partial state (`Rotate`), with no retry.
- JWT signing and decoding. An access token is its claim map, and a decode result is an input.
- The password hash and `verify_password`: these live in `app.auth.security`, which is not part of this model, and are parameters.
- `generate_alphanumeric` and `uuid4`: these are parameters `newValue` and `newId`. Nothing assumes they are fresh; a clashing primary key is an IntegrityError.
- `datetime.utcnow`: one `now` per request. The source reads the clock several times within a request, and the model does not capture the microseconds between those readings.
- Settings loading: only the two lifetimes are kept, as constants.
- The `created_at` and `updated_at` timestamps: nothing in the core reads them.
- `EmailStr` validation of the registration email, which would give a 422 before the handler runs, and normalises the address; the model receives the email after validation.
- UserCrud.UsersCRUD.Delete: the user table does not read the token table; the set of referenced user ids is a parameter `owners`, standing for `TokenOwners` of the token table; the model does not tie the two tables together. For the same reason `RefreshTokenCRUD.Create` and `Jwt.CreateRefreshToken` accept a `user_id` that names no user, which the database would refuse; every call in the routes passes a stored user, from `authenticate_user` or `get_current_user`, so the core never reaches that case.
- `get_my_account`: it only returns the current user, which `Jwt.CurrentUser` covers.
- The PATCH and DELETE user routes and their self-or-admin policy: no shown source implements them.
- The password-only patch: `UserPatch` has no password field.
- UserModel.PatchItems: the `user_id` field (alias `id`) of `UserPatch` is not a column. The model leaves it out of the dumped pairs instead of following `setattr` of an attribute that is not a column.

## Findings

| source | as written | input that shows it | evidently intended | confidence | as-written member | corrected member |
|---|---|---|---|---|---|---|
| app/auth/crud/refresh_token.py:68 | `delete` calls `self.get(token_id)` with the id as a positional argument, but `get` takes keyword arguments only | any call `delete(t.id)` for a stored token `t`: it raises a TypeError and `t` stays visible | `self.get(id=token_id)`, after which the row is soft-deleted and no lookup returns it | not executed | RefreshTokenCrud.RefreshTokenCRUD.DeleteAsWritten | RefreshTokenCrud.RefreshTokenCRUD.Delete |
