/** `UserService`: the five operations of the user module over the user
    table. The table is a field of the service object; the operations that
    write to the store update that field in place. The hash function
    (`bcrypt.hash`), the clock and the store's id generator are
    parameters. */
module UsersService {
  import opened Wrappers
  import opened UserTypes
  import opened UserModel
  import opened UserQuery

  datatype Pagination = Pagination(page: int, limit: int, totalRecords: nat, totalPages: Option<int>)

  /** The result of `getUsers`: one page of rows and the pagination block. */
  datatype UsersPage = UsersPage(data: seq<UserView>, pagination: Pagination)

  /** Newest first, by the projected `created_at`. */
  predicate NewestFirst(vs: seq<UserView>)
  {
    forall i, j :: 0 <= i < j < |vs| ==>
      vs[i].createdAt.Some? && vs[j].createdAt.Some? && vs[i].createdAt.value >= vs[j].createdAt.value
  }

  /** A window of a list sorted newest first is itself sorted, and each of
      its rows is in the list. */
  lemma WindowOfSorted(s: seq<User>, skip: nat, take: int)
    requires SortedByCreatedDesc(s)
    ensures SortedByCreatedDesc(Window(s, skip, take))
    ensures forall u :: u in Window(s, skip, take) ==> u in s
  {
    if take >= 0 {
      if skip < |s| {
        SliceOfSorted(s, skip, Min(skip + take, |s|));
      }
    } else {
      var end := Max(0, |s| - skip);
      SliceOfSorted(s, Max(0, end + take), end);
    }
  }

  lemma SliceOfSorted(s: seq<User>, lo: int, hi: int)
    requires SortedByCreatedDesc(s) && 0 <= lo <= hi <= |s|
    ensures SortedByCreatedDesc(s[lo..hi])
    ensures forall u :: u in s[lo..hi] ==> u in s
  {
    forall i, j | 0 <= i < j < hi - lo ensures s[lo..hi][i].createdAt >= s[lo..hi][j].createdAt {
      assert s[lo..hi][i] == s[lo + i] && s[lo..hi][j] == s[lo + j];
    }
    forall u | u in s[lo..hi] ensures u in s {
      var k :| 0 <= k < hi - lo && s[lo..hi][k] == u;
      assert s[lo + k] == u;
    }
  }

  /** Every view is the list projection of an active row of `users` that
      matches `search`. */
  predicate FromMatchingRows(data: seq<UserView>, users: seq<User>, search: string)
  {
    forall v :: v in data ==>
      v.isActive == Some(true) && exists u :: u in users && Matches(u, search) && v == ListView(u)
  }

  /** `data` is the projection of the slice `[skip, skip + take)` of
      `ordered`, cut off at its end. */
  predicate IsSlice(data: seq<UserView>, ordered: seq<User>, skip: int, take: int)
  {
    |data| == Min(take, Max(0, |ordered| - skip)) &&
    forall k :: 0 <= k < |data| ==> 0 <= skip + k < |ordered| && data[k] == ListView(ordered[skip + k])
  }

  /** `data` is the projection of the `-take` rows of `ordered` that end
      `skip` rows before its end, cut off at its start: the store's
      backward window for a negative `take`. */
  predicate IsTailSlice(data: seq<UserView>, ordered: seq<User>, skip: int, take: int)
  {
    |data| == Min(-take, Max(0, |ordered| - skip)) &&
    forall k :: 0 <= k < |data| ==>
      0 <= |ordered| - skip - |data| + k < |ordered| && data[k] == ListView(ordered[|ordered| - skip - |data| + k])
  }

  /** For a non-negative `take` the projected window is the forward slice. */
  lemma ForwardViews(ordered: seq<User>, skip: nat, take: int)
    requires take >= 0
    ensures IsSlice(ListViews(Window(ordered, skip, take)), ordered, skip, take)
  {
    var rows := Window(ordered, skip, take);
    var data := ListViews(rows);
    forall k | 0 <= k < |data| ensures 0 <= skip + k < |ordered| && data[k] == ListView(ordered[skip + k]) {
      assert data[k] == ListView(rows[k]);
    }
  }

  /** For a negative `take` the projected window is the backward slice. */
  lemma BackwardViews(ordered: seq<User>, skip: nat, take: int)
    requires take < 0
    ensures IsTailSlice(ListViews(Window(ordered, skip, take)), ordered, skip, take)
  {
    var rows := Window(ordered, skip, take);
    var data := ListViews(rows);
    var n := |ordered| - skip - |data|;
    forall k | 0 <= k < |data| ensures 0 <= n + k < |ordered| && data[k] == ListView(ordered[n + k]) {
      assert data[k] == ListView(rows[k]);
    }
  }

  /** The rows of one page: at most `|take|` of them, newest first, each the
      projection of an active matching row; with a non-negative `take`,
      the slice of the ordered rows that starts at `skip`; with a negative
      one, the slice that ends `skip` rows before the end. */
  lemma PageRows(users: seq<User>, search: string, skip: nat, take: int)
    ensures var ordered := SortByCreatedDesc(Filter(users, search));
      var data := ListViews(Window(ordered, skip, take));
      |data| <= Abs(take) && NewestFirst(data) && FromMatchingRows(data, users, search) &&
      (take >= 0 ==> IsSlice(data, ordered, skip, take)) &&
      (take < 0 ==> IsTailSlice(data, ordered, skip, take))
  {
    var ordered := SortByCreatedDesc(Filter(users, search));
    var rows := Window(ordered, skip, take);
    var data := ListViews(rows);
    WindowOfSorted(ordered, skip, take);
    if take >= 0 {
      ForwardViews(ordered, skip, take);
    } else {
      BackwardViews(ordered, skip, take);
    }
    forall v | v in data
      ensures v.isActive == Some(true) && exists u :: u in users && Matches(u, search) && v == ListView(u)
    {
      var k :| 0 <= k < |data| && data[k] == v;
      assert rows[k] in rows;
      assert rows[k] in multiset(ordered);
    }
  }

  /** A deactivated row is found at the same place, and deactivating it
      again changes nothing: the second `deactivateUser` succeeds and
      leaves the same table. */
  lemma DeactivateTwice(users: seq<User>, id: UserId)
    requires Find(users, id).Some?
    ensures var k := Find(users, id).value;
      var once := users[k := Deactivate(users[k])];
      Find(once, id) == Some(k) && once[k := Deactivate(once[k])] == once
  {
    var k := Find(users, id).value;
    FindSeesOnlyIds(users, users[k := Deactivate(users[k])], id);
  }

  class UserService {
    var users: seq<User>

    predicate Valid()
      reads this
    {
      UniqueKeys(users)
    }

    constructor ()
      ensures Valid() && users == []
    {
      users := [];
    }

    /** `getUsers`: the window `skip = (page - 1) * limit`, `take = limit` of
        the matching rows newest first, and the count of all matching rows.
        Both reads see the same table. */
    method GetUsers(page: int, limit: int, search: string) returns (r: Result<UsersPage, StoreError>)
      ensures r.Failure? <==> Offset(page, limit) < 0
      ensures r.Failure? ==> r.error == NegativeSkip
      ensures r.Success? ==>
        var p := r.value.pagination;
        p.page == page && p.limit == limit && p.totalRecords == |Filter(users, search)| &&
        p.totalPages == TotalPages(p.totalRecords, limit)
      ensures r.Success? ==>
        |r.value.data| <= Abs(limit) && NewestFirst(r.value.data) &&
        FromMatchingRows(r.value.data, users, search)
      ensures r.Success? && page >= 1 && limit >= 1 ==>
        IsSlice(r.value.data, SortByCreatedDesc(Filter(users, search)), Offset(page, limit), limit)
      ensures r.Success? && limit < 0 ==>
        IsTailSlice(r.value.data, SortByCreatedDesc(Filter(users, search)), Offset(page, limit), limit)
    {
      var skip := Offset(page, limit);
      if skip < 0 {
        return Failure(NegativeSkip);
      }
      var matching := Filter(users, search);
      var data := ListViews(Window(SortByCreatedDesc(matching), skip, limit));
      PageRows(users, search, skip, limit);
      var totalRecords := |matching|;
      r := Success(UsersPage(data, Pagination(page, limit, totalRecords, TotalPages(totalRecords, limit))));
    }

    /** `getUserById`: the projection of the row with the id, or nothing. */
    method GetUserById(id: UserId) returns (r: Option<UserView>)
      ensures r.None? <==> forall k :: 0 <= k < |users| ==> users[k].id != id
      ensures r.Some? ==> exists k :: 0 <= k < |users| && users[k].id == id && r.value == ListView(users[k])
      ensures Find(users, id).Some? ==> r == Some(ListView(users[Find(users, id).value]))
    {
      var k := Find(users, id);
      if k.None? {
        return None;
      }
      r := Some(ListView(users[k.value]));
    }

    /** `createUser`: stores the hash of the password, never the password;
        the store refuses a row whose id, username or email is taken. */
    method CreateUser(dto: CreateUserDto, hash: string -> string, newId: UserId, now: Timestamp)
      returns (r: Result<UserView, StoreError>)
      requires Valid()
      modifies this
      ensures Valid()
      ensures Clashes(old(users), newId, dto.username, dto.email) ==>
        r == Failure(UniqueViolation) && users == old(users)
      ensures !Clashes(old(users), newId, dto.username, dto.email) ==>
        var u := NewUser(dto, newId, hash(dto.password), now);
        users == old(users) + [u] && r == Success(CreatedView(u))
    {
      var hashed := hash(dto.password);
      if Clashes(users, newId, dto.username, dto.email) {
        return Failure(UniqueViolation);
      }
      var u := NewUser(dto, newId, hashed, now);
      InsertKeepsKeysUnique(users, u);
      users := users + [u];
      r := Success(CreatedView(u));
    }

    /** `updateUser`: a partial update of the row with the id; an unknown id
        is a store error and changes nothing. */
    method UpdateUser(id: UserId, dto: UpdateUserDto) returns (r: Result<UserView, StoreError>)
      requires Valid()
      modifies this
      ensures Valid()
      ensures Find(old(users), id).None? ==> r == Failure(RecordNotFound) && users == old(users)
      ensures Find(old(users), id).Some? ==>
        var k := Find(old(users), id).value;
        users == old(users)[k := ApplyUpdate(old(users)[k], dto)] && r == Success(UpdatedView(users[k]))
    {
      var found := Find(users, id);
      if found.None? {
        return Failure(RecordNotFound);
      }
      var k := found.value;
      var v := ApplyUpdate(users[k], dto);
      ReplaceKeepsKeysUnique(users, k, v);
      users := users[k := v];
      r := Success(UpdatedView(v));
    }

    /** `deactivateUser`: the soft delete. Its result is the whole updated
        row, password hash included; the controller does not send it. */
    method DeactivateUser(id: UserId) returns (r: Result<User, StoreError>)
      requires Valid()
      modifies this
      ensures Valid()
      ensures Find(old(users), id).None? ==> r == Failure(RecordNotFound) && users == old(users)
      ensures Find(old(users), id).Some? ==>
        var k := Find(old(users), id).value;
        users == old(users)[k := Deactivate(old(users)[k])] && r == Success(users[k])
    {
      var found := Find(users, id);
      if found.None? {
        return Failure(RecordNotFound);
      }
      var k := found.value;
      var v := Deactivate(users[k]);
      ReplaceKeepsKeysUnique(users, k, v);
      users := users[k := v];
      r := Success(v);
    }
  }

  /** Creating a user and reading it back by id gives the submitted fields,
      the default `is_active`, the creation time and no password. */
  method CreateThenGet(svc: UserService, dto: CreateUserDto, hash: string -> string, newId: UserId, now: Timestamp)
    returns (created: Result<UserView, StoreError>, fetched: Option<UserView>)
    requires svc.Valid()
    modifies svc
    ensures created.Success? ==>
      fetched == Some(UserView(newId, dto.shopId, dto.username, dto.email, dto.fullName, dto.phone, Some(true), Some(now)))
  {
    ghost var before := svc.users;
    created := svc.CreateUser(dto, hash, newId, now);
    if created.Success? {
      var u := NewUser(dto, newId, hash(dto.password), now);
      assert forall k :: 0 <= k < |before| ==> before[k].id != u.id by {
        forall k | 0 <= k < |before| ensures before[k].id != u.id {
          assert before[k] in before;
        }
      }
      FindAppended(before, u);
    }
    fetched := svc.GetUserById(newId);
  }

  /** A second user with a taken username or email is refused and the table
      keeps the first. */
  method CreateDuplicate(svc: UserService, first: CreateUserDto, second: CreateUserDto,
                         hash: string -> string, id1: UserId, id2: UserId, now: Timestamp)
    returns (r1: Result<UserView, StoreError>, r2: Result<UserView, StoreError>)
    requires svc.Valid()
    requires second.username == first.username || second.email == first.email
    modifies svc
    ensures r1.Success? ==> r2 == Failure(UniqueViolation)
    ensures r1.Success? ==> svc.users == old(svc.users) + [NewUser(first, id1, hash(first.password), now)]
  {
    r1 := svc.CreateUser(first, hash, id1, now);
    if r1.Success? {
      assert svc.users[|svc.users| - 1] in svc.users;
    }
    r2 := svc.CreateUser(second, hash, id2, now);
  }
}
