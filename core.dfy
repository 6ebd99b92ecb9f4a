/** Shared vocabulary of the authentication core: column values, keyword-argument
    filters, the error outcomes the handlers raise, and the two query helpers
    (`scalar_one_or_none` and row selection) that both stores use. */
module Core {

  /** A UUID primary or foreign key. */
  type Uuid = nat

  /** A UTC instant, in whole seconds. */
  type Instant = int

  /** A value stored in a column, passed as a keyword filter, or carried as a claim. */
  datatype Value = VId(id: Uuid) | VText(text: string) | VBool(flag: bool) | VTime(at: Instant) | VNull

  /** The `**kwargs` of a lookup, as (key, value) pairs in call order. */
  type Filter = seq<(string, Value)>

  /** The failures of the core: the three HTTP exceptions it raises with their
      detail texts, and the three exceptions the database layer or Python raises. */
  datatype Error =
    | BadRequest(detail: string)
    | Unauthorized(detail: string)
    | NotFound(detail: string)
    | MultipleResultsFound   // scalar_one_or_none saw more than one row
    | IntegrityError         // a primary-key or unique constraint refused a commit
    | TypeError              // a call whose arguments do not fit the callee

  datatype Option<T> = None | Some(value: T)

  datatype Result<T> = Ok(value: T) | Err(error: Error)

  /** Every key of `f` is one of `allowed`. */
  predicate KeysAllowed(f: Filter, allowed: seq<string>)
  {
    forall j :: 0 <= j < |f| ==> f[j].0 in allowed
  }

  /** The `for key in kwargs: if key not in allowed_keys: raise` loop of both stores. */
  method CheckKeys(f: Filter, allowed: seq<string>) returns (ok: bool)
    ensures ok <==> KeysAllowed(f, allowed)
    ensures !ok ==> exists j :: 0 <= j < |f| && f[j].0 !in allowed
  {
    var i := 0;
    while i < |f|
      invariant 0 <= i <= |f|
      invariant forall j :: 0 <= j < i ==> f[j].0 in allowed
    {
      if f[i].0 !in allowed {
        return false;
      }
      i := i + 1;
    }
    return true;
  }

  /** The positions, in increasing order, of the rows a `WHERE` clause selects. */
  function Positions<T>(rows: seq<T>, keep: T -> bool): (hits: seq<nat>)
    ensures forall k :: 0 <= k < |hits| ==> hits[k] < |rows| && keep(rows[hits[k]])
    ensures forall i :: 0 <= i < |rows| && keep(rows[i]) ==> i in hits
    ensures forall a, b :: 0 <= a < b < |hits| ==> hits[a] < hits[b]
  {
    if rows == [] then []
    else
      var n := |rows| - 1;
      Positions(rows[..n], keep) + if keep(rows[n]) then [n] else []
  }

  /** `scalar_one_or_none`: no row, the one row, or an error for several. */
  function ScalarOneOrNone(hits: seq<nat>): Result<Option<nat>>
  {
    if |hits| == 0 then Ok(None)
    else if |hits| == 1 then Ok(Some(hits[0]))
    else Err(MultipleResultsFound)
  }

  /** A query read with `scalar_one_or_none`: none iff no row is selected; the
      one selected row; and an error iff two rows are selected. */
  function SelectOne<T>(rows: seq<T>, keep: T -> bool): (r: Result<Option<nat>>)
    ensures r == Ok(None) <==> forall i :: 0 <= i < |rows| ==> !keep(rows[i])
    ensures r.Ok? && r.value.Some? ==>
              && r.value.value < |rows| && keep(rows[r.value.value])
              && forall i :: 0 <= i < |rows| && keep(rows[i]) ==> i == r.value.value
    ensures r == Err(MultipleResultsFound) <==> exists i, j :: 0 <= i < j < |rows| && keep(rows[i]) && keep(rows[j])
    ensures r.Ok? || r == Err(MultipleResultsFound)
  {
    var hits := Positions(rows, keep);
    assert |hits| >= 2 ==> keep(rows[hits[0]]) && keep(rows[hits[1]]);
    ScalarOneOrNone(hits)
  }
}

/** The two lifetimes of the settings object, with their configured defaults. */
module Config {

  /** Named in seconds; the handlers apply it as a number of minutes. */
  const JWT_ACCESS_TOKEN_EXPIRE_SECS: int := 5 * 60

  /** Applied as a number of seconds (10080 seconds is 2 hours 48 minutes). */
  const JWT_REFRESH_TOKEN_EXPIRE_SECS: int := 7 * 24 * 60
}
