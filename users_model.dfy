/** The user schema: which keys are unique, what a new row starts with, and
    how a partial update and a deactivation change a row. */
module UserModel {
  import opened Wrappers
  import opened UserTypes

  /** No two rows share an id, a username or an email, whether active or
      not. */
  predicate UniqueKeys(users: seq<User>)
    ensures UniqueKeys(users) ==>
      forall i, j ::
        0 <= i < |users| && 0 <= j < |users| &&
        (users[i].id == users[j].id || users[i].username == users[j].username || users[i].email == users[j].email)
        ==> i == j
  {
    forall i, j :: 0 <= i < j < |users| ==>
      users[i].id != users[j].id &&
      users[i].username != users[j].username &&
      users[i].email != users[j].email
  }

  /** Some row already holds the id, the username or the email. */
  predicate Clashes(users: seq<User>, id: UserId, username: string, email: string)
  {
    exists u :: u in users && (u.id == id || u.username == username || u.email == email)
  }

  /** The row `createUser` inserts: the DTO's fields copied, the hash in
      place of the password, `is_active` and `created_at` at their schema
      defaults and no `last_login`. */
  function NewUser(dto: CreateUserDto, id: UserId, passwordHash: string, now: Timestamp): (u: User)
    ensures u.id == id && u.username == dto.username && u.email == dto.email
    ensures u.shopId == dto.shopId && u.fullName == dto.fullName && u.phone == dto.phone
    ensures u.passwordHash == passwordHash
    ensures u.isActive && u.lastLogin.None? && u.createdAt == now
  {
    User(id, dto.shopId, dto.username, dto.email, passwordHash, dto.fullName, dto.phone,
         true, None, now)
  }

  /** Two rows agree on everything an update DTO cannot touch. */
  predicate SameKeys(a: User, b: User)
  {
    a.id == b.id && a.shopId == b.shopId && a.username == b.username && a.email == b.email &&
    a.passwordHash == b.passwordHash && a.lastLogin == b.lastLogin && a.createdAt == b.createdAt
  }

  /** Prisma's partial update: a field present in the DTO overwrites the
      row's, an absent one leaves it. */
  function ApplyUpdate(u: User, dto: UpdateUserDto): (v: User)
    ensures SameKeys(u, v)
    ensures v.fullName == (if dto.fullName.Some? then dto.fullName else u.fullName)
    ensures v.phone == (if dto.phone.Some? then dto.phone else u.phone)
    ensures v.isActive == (if dto.isActive.Some? then dto.isActive.value else u.isActive)
  {
    u.(fullName := if dto.fullName.Some? then dto.fullName else u.fullName,
       phone := if dto.phone.Some? then dto.phone else u.phone,
       isActive := if dto.isActive.Some? then dto.isActive.value else u.isActive)
  }

  /** The soft delete: only `is_active` becomes false. */
  function Deactivate(u: User): (v: User)
    ensures !v.isActive
    ensures SameKeys(u, v) && v.fullName == u.fullName && v.phone == u.phone
  {
    u.(isActive := false)
  }

  /** Deactivation is the update `{is_active: false}`. */
  lemma DeactivateIsUpdate(u: User)
    ensures Deactivate(u) == ApplyUpdate(u, UpdateUserDto(None, None, Some(false)))
  {
  }

  /** Applying the same update twice is applying it once, and an empty
      update changes nothing. */
  lemma ApplyUpdateIdempotent(u: User, dto: UpdateUserDto)
    ensures ApplyUpdate(ApplyUpdate(u, dto), dto) == ApplyUpdate(u, dto)
    ensures ApplyUpdate(u, UpdateUserDto(None, None, None)) == u
  {
  }

  /** Inserting a row that clashes with no stored row keeps the keys
      unique. */
  lemma InsertKeepsKeysUnique(users: seq<User>, u: User)
    requires UniqueKeys(users)
    requires !Clashes(users, u.id, u.username, u.email)
    ensures UniqueKeys(users + [u])
  {
    var t := users + [u];
    forall i, j | 0 <= i < j < |t|
      ensures t[i].id != t[j].id && t[i].username != t[j].username && t[i].email != t[j].email
    {
      if j == |users| { assert t[i] in users; }
    }
  }

  /** Replacing a row by one with the same keys keeps the keys unique. */
  lemma ReplaceKeepsKeysUnique(users: seq<User>, k: nat, v: User)
    requires UniqueKeys(users)
    requires k < |users| && SameKeys(users[k], v)
    ensures UniqueKeys(users[k := v])
  {
  }
}
