/** The user record, the registration input with its password-hashing
    validator, and the partial update (`UserPatch`) with its
    "at least one field" validator. */
module UserModel {
  import opened Core

  /** A stored user (`User`). `password` holds the hash, never the plaintext. */
  datatype User = User(
    id: Uuid,
    username: string,
    email: string,
    password: string,
    isAdmin: bool,
    isActive: bool)

  /** The registration input (`UserCreate`), after its validators have run. */
  datatype UserCreate = UserCreate(username: string, email: string, password: string)

  /** Building a `UserCreate` runs the `hash_password` field validator, which
      replaces the plaintext by `hash(plaintext)`; the hash is a parameter. */
  function MakeUserCreate(username: string, email: string, plaintext: string, hash: string -> string): UserCreate
  {
    UserCreate(username, email, hash(plaintext))
  }

  /** `User(**data.model_dump())` with the generated id: the flags take their defaults. */
  function NewUser(id: Uuid, data: UserCreate): User
  {
    User(id, data.username, data.email, data.password, false, false)
  }

  /** A new user keeps the registration fields, stores the hash of the
      plaintext, and starts neither admin nor active. */
  lemma NewUserDefaults(id: Uuid, username: string, email: string, plaintext: string, hash: string -> string)
    ensures var u := NewUser(id, MakeUserCreate(username, email, plaintext, hash));
      && u.id == id && u.username == username && u.email == email
      && u.password == hash(plaintext)
      && !u.isAdmin && !u.isActive
  {
  }

  /** A partial update. `userId` is the `id` alias of the payload; it is not a
      column, so it takes no part in the validator or in the update. */
  datatype UserPatch = UserPatch(
    userId: Option<Uuid>,
    username: Option<string>,
    email: Option<string>,
    isActive: Option<bool>,
    isAdmin: Option<bool>)

  /** Python truthiness of an optional string and an optional flag. */
  predicate TruthyText(s: Option<string>) { s.Some? && s.value != "" }
  predicate TruthyFlag(b: Option<bool>) { b == Some(true) }

  /** The `check_if_at_least_one` model validator. */
  function CheckIfAtLeastOne(p: UserPatch): (r: Result<UserPatch>)
    ensures r.Ok? ==> r.value == p
    ensures r.Ok? <==> TruthyText(p.username) || TruthyText(p.email) || TruthyFlag(p.isActive) || TruthyFlag(p.isAdmin)
    ensures r.Err? ==> r.error == BadRequest("At least one of username, email, is_active, is_admin must be provided")
  {
    if !(TruthyText(p.username) || TruthyText(p.email) || TruthyFlag(p.isActive) || TruthyFlag(p.isAdmin)) then
      Err(BadRequest("At least one of username, email, is_active, is_admin must be provided"))
    else
      Ok(p)
  }

  /** An empty patch, or one that names only the id, is rejected. */
  lemma EmptyPatchRejected(userId: Option<Uuid>)
    ensures CheckIfAtLeastOne(UserPatch(userId, None, None, None, None)).Err?
  {
  }

  /** A patch whose only fields are flags set to false is rejected, because
      the validator tests truthiness and not presence. */
  lemma FalseFlagsRejected(p: UserPatch)
    requires p.username.None? && p.email.None?
    requires p.isActive != Some(true) && p.isAdmin != Some(true)
    ensures CheckIfAtLeastOne(p).Err?
  {
  }

  /** One `(key, value)` pair of the dump, typed by the column it names. */
  datatype Assignment = SetUsername(s: string) | SetEmail(s: string) | SetIsActive(b: bool) | SetIsAdmin(b: bool)

  /** The pair a given optional column contributes to the dump. */
  function UsernameItem(p: UserPatch): seq<Assignment> { if p.username.Some? then [SetUsername(p.username.value)] else [] }
  function EmailItem(p: UserPatch): seq<Assignment> { if p.email.Some? then [SetEmail(p.email.value)] else [] }
  function IsActiveItem(p: UserPatch): seq<Assignment> { if p.isActive.Some? then [SetIsActive(p.isActive.value)] else [] }
  function IsAdminItem(p: UserPatch): seq<Assignment> { if p.isAdmin.Some? then [SetIsAdmin(p.isAdmin.value)] else [] }

  /** The pairs of `model_dump(exclude_none=True, exclude_unset=True)` that name
      columns, in field order. */
  function PatchItems(p: UserPatch): seq<Assignment>
  {
    UsernameItem(p) + (EmailItem(p) + (IsActiveItem(p) + IsAdminItem(p)))
  }

  /** `setattr(user, key, value)` for one pair. */
  function SetField(u: User, item: Assignment): User
  {
    match item
    case SetUsername(s) => u.(username := s)
    case SetEmail(s) => u.(email := s)
    case SetIsActive(b) => u.(isActive := b)
    case SetIsAdmin(b) => u.(isAdmin := b)
  }

  /** The `setattr` loop over the pairs, in order. */
  function ApplyItems(u: User, items: seq<Assignment>): User
    decreases |items|
  {
    if items == [] then u else ApplyItems(SetField(u, items[0]), items[1..])
  }

  /** The field-by-field patch as a reference definition: a field given in the
      patch takes its value, every other field keeps its own. */
  function ApplyPatch(u: User, p: UserPatch): User
  {
    User(
      u.id,
      if p.username.Some? then p.username.value else u.username,
      if p.email.Some? then p.email.value else u.email,
      u.password,
      if p.isAdmin.Some? then p.isAdmin.value else u.isAdmin,
      if p.isActive.Some? then p.isActive.value else u.isActive)
  }

  /** Applying an optional first pair, then the rest. */
  lemma ApplyFirst(u: User, first: seq<Assignment>, rest: seq<Assignment>)
    requires |first| <= 1
    ensures ApplyItems(u, first + rest) == ApplyItems(if first == [] then u else SetField(u, first[0]), rest)
  {
    if first == [] {
      assert first + rest == rest;
    } else {
      assert (first + rest)[0] == first[0];
      assert (first + rest)[1..] == rest;
    }
  }

  /** The `setattr` loop over the dumped pairs performs exactly the field-by-field patch. */
  lemma PatchItemsApplyPatch(u: User, p: UserPatch)
    ensures ApplyItems(u, PatchItems(p)) == ApplyPatch(u, p)
  {
    var b, c, d := EmailItem(p), IsActiveItem(p), IsAdminItem(p);
    var u1 := if p.username.Some? then u.(username := p.username.value) else u;
    var u2 := if p.email.Some? then u1.(email := p.email.value) else u1;
    var u3 := if p.isActive.Some? then u2.(isActive := p.isActive.value) else u2;
    ApplyFirst(u, UsernameItem(p), b + (c + d));
    ApplyFirst(u1, b, c + d);
    ApplyFirst(u2, c, d);
    if d != [] {
      assert d[1..] == [];
    }
  }

  /** Applying the same patch twice is the same as applying it once. */
  lemma PatchIsIdempotent(u: User, p: UserPatch)
    ensures ApplyPatch(ApplyPatch(u, p), p) == ApplyPatch(u, p)
  {
  }

  /** An accepted patch always names at least one column to set. */
  lemma AcceptedPatchHasItems(p: UserPatch)
    requires CheckIfAtLeastOne(p).Ok?
    ensures |PatchItems(p)| > 0
  {
  }
}
