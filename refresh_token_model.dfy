/** The refresh-token record: its creation defaults and its expiry predicate. */
module RefreshTokenModel {
  import opened Core
  import Config

  /** The fields a caller supplies or leaves to their defaults (`RefreshTokenBase`). */
  datatype RefreshTokenBase = RefreshTokenBase(
    id: Uuid,
    userId: Uuid,
    tokenValue: string,
    expiresAt: Instant,
    issuedAt: Instant,
    isRevoked: bool)

  /** A stored row (`RefreshToken`), which adds the soft-delete flag. */
  datatype RefreshToken = RefreshToken(
    id: Uuid,
    userId: Uuid,
    tokenValue: string,
    expiresAt: Instant,
    issuedAt: Instant,
    isRevoked: bool,
    isDeleted: bool)

  /** `RefreshTokenBase(user_id=userId)` with every other field at its default:
      the generated id and token value and the clock reading are parameters. */
  function NewTokenBase(id: Uuid, userId: Uuid, tokenValue: string, now: Instant): RefreshTokenBase
  {
    RefreshTokenBase(id, userId, tokenValue, now + Config.JWT_REFRESH_TOKEN_EXPIRE_SECS, now, false)
  }

  /** `RefreshToken(**data.model_dump())`: the row built from the supplied fields. */
  function StoredRow(data: RefreshTokenBase): RefreshToken
  {
    RefreshToken(data.id, data.userId, data.tokenValue, data.expiresAt, data.issuedAt, data.isRevoked, false)
  }

  /** The computed `is_expired` field. */
  predicate IsExpired(t: RefreshToken, now: Instant)
  {
    t.expiresAt <= now
  }

  /** A row created at `now` carries the requested owner and value, was issued
      at `now`, lives for the configured lifetime, and is neither revoked nor
      deleted. */
  lemma FreshTokenDefaults(id: Uuid, userId: Uuid, tokenValue: string, now: Instant)
    ensures var t := StoredRow(NewTokenBase(id, userId, tokenValue, now));
      && t.id == id && t.userId == userId && t.tokenValue == tokenValue
      && t.issuedAt == now
      && t.expiresAt == now + 10080
      && !t.isRevoked && !t.isDeleted
  {
  }

  /** A fresh row is not expired at any instant before its lifetime runs out,
      in particular not at the instant of its creation. */
  lemma FreshTokenNotExpired(id: Uuid, userId: Uuid, tokenValue: string, now: Instant, at: Instant)
    requires now <= at < now + Config.JWT_REFRESH_TOKEN_EXPIRE_SECS
    ensures !IsExpired(StoredRow(NewTokenBase(id, userId, tokenValue, now)), at)
    ensures IsExpired(StoredRow(NewTokenBase(id, userId, tokenValue, now)), now + Config.JWT_REFRESH_TOKEN_EXPIRE_SECS)
  {
  }

  /** Expiry is permanent: once expired, a row stays expired. */
  lemma ExpiryIsPermanent(t: RefreshToken, now: Instant, later: Instant)
    requires IsExpired(t, now) && now <= later
    ensures IsExpired(t, later)
  {
  }
}
