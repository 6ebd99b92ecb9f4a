/** The user table and its CRUD object (`UsersCRUD`). The table keeps the
    schema's primary key and its two unique columns, username and email. */
module UserCrud {
  import opened Core
  import opened UserModel

  /** The keys `get` accepts. */
  const USER_FILTER_KEYS: seq<string> := ["id", "username", "email"]

  const DUPLICATE_USER := "User with this username or email already exists"

  /** `getattr(user, key)` for the filterable columns. */
  function UserColumn(u: User, key: string): Option<Value>
  {
    if key == "id" then Some(VId(u.id))
    else if key == "username" then Some(VText(u.username))
    else if key == "email" then Some(VText(u.email))
    else None
  }

  /** The WHERE clause of `get`: equal to every filter value. */
  predicate UserMatches(u: User, f: Filter)
  {
    forall j :: 0 <= j < |f| ==> UserColumn(u, f[j].0) == Some(f[j].1)
  }

  function ByUsername(name: Value): Filter
  {
    [("username", name)]
  }

  function ByUserId(userId: Uuid): Filter
  {
    [("id", VId(userId))]
  }

  /** The outcome of `get(**f)`: the position of the user found, or the error raised. */
  function UserLookup(rows: seq<User>, f: Filter): (r: Result<nat>)
    ensures r == Err(BadRequest("Invalid key")) <==> !KeysAllowed(f, USER_FILTER_KEYS)
    ensures r.Ok? ==>
              && r.value < |rows| && UserMatches(rows[r.value], f)
              && forall i :: 0 <= i < |rows| && UserMatches(rows[i], f) ==> i == r.value
    ensures r == Err(NotFound("User not found")) <==>
              KeysAllowed(f, USER_FILTER_KEYS) && forall i :: 0 <= i < |rows| ==> !UserMatches(rows[i], f)
    ensures r == Err(MultipleResultsFound) <==>
              && KeysAllowed(f, USER_FILTER_KEYS)
              && exists i, j :: 0 <= i < j < |rows| && UserMatches(rows[i], f) && UserMatches(rows[j], f)
    ensures r.Ok? || r == Err(BadRequest("Invalid key")) || r == Err(NotFound("User not found"))
            || r == Err(MultipleResultsFound)
  {
    if !KeysAllowed(f, USER_FILTER_KEYS) then Err(BadRequest("Invalid key"))
    else
      match SelectOne(rows, u => UserMatches(u, f))
      case Ok(Some(k)) => Ok(k)
      case Ok(None) => Err(NotFound("User not found"))
      case Err(e) => Err(e)
  }

  /** The schema's constraints: ids, usernames and emails are each unique. */
  predicate FieldsUnique(rows: seq<User>)
  {
    forall i, j :: 0 <= i < |rows| && 0 <= j < |rows| && i != j ==>
      rows[i].id != rows[j].id && rows[i].username != rows[j].username && rows[i].email != rows[j].email
  }

  /** The query of `check_user_unique_fields`: some user has the same email or the same username. */
  predicate Clashes(rows: seq<User>, data: UserCreate)
  {
    exists i :: 0 <= i < |rows| && (rows[i].email == data.email || rows[i].username == data.username)
  }

  predicate HasUserId(rows: seq<User>, userId: Uuid)
  {
    exists i :: 0 <= i < |rows| && rows[i].id == userId
  }

  /** Writing `u` over row `k` would break a constraint against another row. */
  predicate ClashesWithOthers(rows: seq<User>, k: nat, u: User)
  {
    exists j :: 0 <= j < |rows| && j != k && (rows[j].id == u.id || rows[j].username == u.username || rows[j].email == u.email)
  }

  /** The table after `DELETE ... WHERE id = userId`. */
  function WithoutId(rows: seq<User>, userId: Uuid): (r: seq<User>)
    ensures forall x :: x in r <==> x in rows && x.id != userId
    ensures FieldsUnique(rows) ==> FieldsUnique(r)
  {
    if rows == [] then []
    else
      var n := |rows| - 1;
      var front := WithoutId(rows[..n], userId);
      assert forall x :: x in rows <==> x in rows[..n] || x == rows[n];
      if rows[n].id == userId then front
      else
        assert FieldsUnique(rows) ==> forall x :: x in rows[..n] ==>
          x.id != rows[n].id && x.username != rows[n].username && x.email != rows[n].email;
        front + [rows[n]]
  }

  class UsersCRUD {
    var rows: seq<User>

    predicate Valid()
      reads this
    {
      FieldsUnique(rows)
    }

    constructor ()
      ensures Valid() && rows == []
    {
      rows := [];
    }

    /** `check_user_unique_fields(data)`: fails when the email or the username is taken. */
    method CheckUserUniqueFields(data: UserCreate) returns (r: Result<()>)
      ensures r.Ok? <==> forall i :: 0 <= i < |rows| ==> rows[i].email != data.email && rows[i].username != data.username
      ensures r.Err? ==> r == Err(BadRequest(DUPLICATE_USER))
    {
      if Clashes(rows, data) {
        r := Err(BadRequest(DUPLICATE_USER));
      } else {
        r := Ok(());
      }
    }

    /** `create(data)`: the uniqueness check, then one new row with default flags;
        a clash on the generated primary key is refused by the database. */
    method Create(data: UserCreate, newId: Uuid) returns (r: Result<User>)
      requires Valid()
      modifies this
      ensures Valid()
      ensures Clashes(old(rows), data) ==> r == Err(BadRequest(DUPLICATE_USER)) && rows == old(rows)
      ensures !Clashes(old(rows), data) && HasUserId(old(rows), newId) ==> r == Err(IntegrityError) && rows == old(rows)
      ensures !Clashes(old(rows), data) && !HasUserId(old(rows), newId) ==>
                r == Ok(NewUser(newId, data)) && rows == old(rows) + [NewUser(newId, data)]
    {
      var unique := CheckUserUniqueFields(data);
      if unique.Err? {
        return Err(unique.error);
      }
      if HasUserId(rows, newId) {
        return Err(IntegrityError);
      }
      var u := NewUser(newId, data);
      rows := rows + [u];
      r := Ok(u);
    }

    /** `get(**f)`: the keys are checked one by one before any row is read. */
    method Get(f: Filter) returns (r: Result<nat>)
      ensures r == UserLookup(rows, f)
    {
      var ok := CheckKeys(f, USER_FILTER_KEYS);
      if !ok {
        return Err(BadRequest("Invalid key"));
      }
      var one := SelectOne(rows, u => UserMatches(u, f));
      match one
      case Ok(Some(k)) => r := Ok(k);
      case Ok(None) => r := Err(NotFound("User not found"));
      case Err(e) => r := Err(e);
    }

    /** `update(userId, patch)`: finds the user, sets each dumped field in turn,
        and commits; a commit that would break a unique column is refused. */
    method Update(userId: Uuid, patch: UserPatch) returns (r: Result<User>)
      requires Valid()
      modifies this
      ensures Valid()
      ensures match UserLookup(old(rows), ByUserId(userId))
              case Err(e) => r == Err(e) && rows == old(rows)
              case Ok(k) =>
                var patched := ApplyPatch(old(rows)[k], patch);
                if ClashesWithOthers(old(rows), k, patched) then r == Err(IntegrityError) && rows == old(rows)
                else r == Ok(patched) && rows == old(rows)[k := patched]
      ensures r.Ok? ==> r.value.id == userId
      ensures r.Err? ==> r == Err(NotFound("User not found")) || r == Err(IntegrityError)
    {
      LookupById(rows, userId);
      var found := Get(ByUserId(userId));
      if found.Err? {
        return Err(found.error);
      }
      var k := found.value;
      var items := PatchItems(patch);
      var user := rows[k];
      var i := 0;
      PatchItemsApplyPatch(rows[k], patch);
      while i < |items|
        invariant 0 <= i <= |items|
        invariant ApplyItems(user, items[i..]) == ApplyPatch(rows[k], patch)
      {
        assert items[i..][1..] == items[i + 1..];
        user := SetField(user, items[i]);
        i := i + 1;
      }
      if ClashesWithOthers(rows, k, user) {
        r := Err(IntegrityError);
      } else {
        rows := rows[k := user];
        r := Ok(user);
      }
    }

    /** `delete(userId)`: removes every row with that id and reports success,
        whether or not such a row existed. `owners` is the set of user ids
        that token rows reference; the token table's foreign key has no
        `ondelete`, so the database refuses to remove a referenced user and
        the delete statement fails with an integrity error. */
    method Delete(userId: Uuid, owners: set<Uuid>) returns (r: Result<bool>)
      requires Valid()
      modifies this
      ensures Valid()
      ensures userId in owners && HasUserId(old(rows), userId) ==> r == Err(IntegrityError) && rows == old(rows)
      ensures !(userId in owners && HasUserId(old(rows), userId)) ==> r == Ok(true) && rows == WithoutId(old(rows), userId)
    {
      if userId in owners && HasUserId(rows, userId) {
        r := Err(IntegrityError);
      } else {
        rows := WithoutId(rows, userId);
        r := Ok(true);
      }
    }
  }

  /** With unique ids, `get(id=userId)` finds exactly the row with that id,
      and fails with not-found when there is none. */
  lemma LookupById(rows: seq<User>, userId: Uuid)
    requires FieldsUnique(rows)
    ensures forall k :: 0 <= k < |rows| && rows[k].id == userId ==> UserLookup(rows, ByUserId(userId)) == Ok(k)
    ensures !HasUserId(rows, userId) ==> UserLookup(rows, ByUserId(userId)) == Err(NotFound("User not found"))
    ensures UserLookup(rows, ByUserId(userId)).Ok? || UserLookup(rows, ByUserId(userId)) == Err(NotFound("User not found"))
  {
    var f := ByUserId(userId);
    assert KeysAllowed(f, USER_FILTER_KEYS);
    forall i | 0 <= i < |rows|
      ensures UserMatches(rows[i], f) <==> rows[i].id == userId
    {
      assert UserColumn(rows[i], f[0].0) == Some(VId(rows[i].id));
    }
  }

  /** With unique usernames, `get(username=name)` finds exactly the row with
      that username, and fails with not-found when there is none. */
  lemma LookupByUsername(rows: seq<User>, name: string)
    requires FieldsUnique(rows)
    ensures forall k :: 0 <= k < |rows| && rows[k].username == name ==> UserLookup(rows, ByUsername(VText(name))) == Ok(k)
    ensures (forall k :: 0 <= k < |rows| ==> rows[k].username != name) ==>
              UserLookup(rows, ByUsername(VText(name))) == Err(NotFound("User not found"))
  {
    var f := ByUsername(VText(name));
    assert KeysAllowed(f, USER_FILTER_KEYS);
    forall i | 0 <= i < |rows|
      ensures UserMatches(rows[i], f) <==> rows[i].username == name
    {
      assert UserColumn(rows[i], f[0].0) == Some(VText(rows[i].username));
    }
  }

  /** After a delete, no user with that id remains to be found. */
  lemma DeletedUserNotFound(rows: seq<User>, userId: Uuid)
    ensures UserLookup(WithoutId(rows, userId), ByUserId(userId)) == Err(NotFound("User not found"))
  {
    var rest := WithoutId(rows, userId);
    var f := ByUserId(userId);
    assert KeysAllowed(f, USER_FILTER_KEYS);
    forall i | 0 <= i < |rest|
      ensures !UserMatches(rest[i], f)
    {
      assert rest[i] in rest;
      assert UserColumn(rest[i], f[0].0) == Some(VId(rest[i].id));
    }
  }

  /** A successful registration is found by its username. */
  lemma RegisteredUserIsFound(rows: seq<User>, data: UserCreate, newId: Uuid)
    requires FieldsUnique(rows) && !Clashes(rows, data) && !HasUserId(rows, newId)
    ensures FieldsUnique(rows + [NewUser(newId, data)])
    ensures UserLookup(rows + [NewUser(newId, data)], ByUsername(VText(data.username))) == Ok(|rows|)
  {
    var rows' := rows + [NewUser(newId, data)];
    assert forall i :: 0 <= i < |rows| ==> rows'[i] == rows[i];
    LookupByUsername(rows', data.username);
  }
}
