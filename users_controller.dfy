/** The user controller: defaulting of the list query, and the mapping of
    each service result to a status and a JSON body or to `next(err)`.
    Query parameters arrive already parsed: `None` stands for a missing or
    non-numeric value (`Number(...)` gives NaN). */
module UsersController {
  import opened Wrappers
  import opened UserTypes
  import opened UserModel
  import opened UserQuery
  import opened UsersService

  datatype UsersQuery = UsersQuery(page: int, limit: int, search: string)

  /** A JSON response body. */
  datatype Body =
    | Message(message: string)
    | UserBody(user: UserView)
    | MessageWithUser(message: string, user: UserView)
    | PageBody(result: UsersPage)

  /** What a handler does: send a response, or pass the error to `next`. */
  datatype Reply = Send(status: int, body: Body) | Next(error: StoreError)

  const UserNotFound: Reply := Send(404, Message("User not found"))

  /** `Number(req.query.page) || 1`, `Number(req.query.limit) || 10` and
      `req.query.search || ""`: zero and NaN fall back to the default, any
      other number is kept as it is, negative ones included. */
  function ParseUsersQuery(page: Option<int>, limit: Option<int>, search: Option<string>): (q: UsersQuery)
    ensures q.page != 0 && q.limit != 0
    ensures page.Some? && page.value != 0 ==> q.page == page.value
    ensures page.None? || page.value == 0 ==> q.page == 1
    ensures limit.Some? && limit.value != 0 ==> q.limit == limit.value
    ensures limit.None? || limit.value == 0 ==> q.limit == 10
    ensures search.Some? ==> q.search == search.value
    ensures search.None? ==> q.search == ""
  {
    UsersQuery(
      if page.Some? && page.value != 0 then page.value else 1,
      if limit.Some? && limit.value != 0 then limit.value else 10,
      if search.Some? then search.value else "")
  }

  /** Without parameters the service is asked for the first ten rows and no
      text filter. */
  lemma DefaultQuery()
    ensures ParseUsersQuery(None, None, None) == UsersQuery(1, 10, "")
  {
  }

  /** A negative page is passed through, so the window offset is negative
      and the store refuses it. */
  lemma NegativePageGivesNegativeSkip(page: int, limit: Option<int>, search: Option<string>)
    requires page < 0
    requires limit.None? || limit.value > 0
    ensures var q := ParseUsersQuery(Some(page), limit, search);
      Offset(q.page, q.limit) < 0
  {
    var q := ParseUsersQuery(Some(page), limit, search);
    assert q.page - 1 < 0 && q.limit > 0;
  }

  /** `getUsers`: the service's page as the body with status 200, or the
      store error to `next`. Through the controller the limit is never
      zero, so `totalPages` is always a number. */
  method GetUsers(svc: UserService, page: Option<int>, limit: Option<int>, search: Option<string>)
    returns (reply: Reply)
    ensures var q := ParseUsersQuery(page, limit, search);
      (reply.Next? <==> Offset(q.page, q.limit) < 0) &&
      (reply.Next? ==> reply.error == NegativeSkip) &&
      (reply.Send? ==>
         reply.status == 200 && reply.body.PageBody? &&
         reply.body.result.pagination ==
           Pagination(q.page, q.limit, |Filter(svc.users, q.search)|,
                      Some(CeilDiv(|Filter(svc.users, q.search)|, q.limit)))) &&
      (reply.Send? ==>
         var data := reply.body.result.data;
         |data| <= Abs(q.limit) && NewestFirst(data) && FromMatchingRows(data, svc.users, q.search) &&
         (q.page >= 1 && q.limit >= 1 ==>
            IsSlice(data, SortByCreatedDesc(Filter(svc.users, q.search)), Offset(q.page, q.limit), q.limit)) &&
         (q.limit < 0 ==>
            IsTailSlice(data, SortByCreatedDesc(Filter(svc.users, q.search)), Offset(q.page, q.limit), q.limit)))
  {
    var q := ParseUsersQuery(page, limit, search);
    var result := svc.GetUsers(q.page, q.limit, q.search);
    match result
    case Failure(err) => reply := Next(err);
    case Success(p) => reply := Send(200, PageBody(p));
  }

  /** `getUserById`: 404 "User not found" when no row has the id, and the
      projected row otherwise. */
  method GetUserById(svc: UserService, id: UserId) returns (reply: Reply)
    ensures reply == UserNotFound <==> forall k :: 0 <= k < |svc.users| ==> svc.users[k].id != id
    ensures reply != UserNotFound ==>
      reply.Send? && reply.status == 200 && reply.body.UserBody? &&
      exists k :: 0 <= k < |svc.users| && svc.users[k].id == id && reply.body.user == ListView(svc.users[k])
  {
    var user := svc.GetUserById(id);
    if user.None? {
      return UserNotFound;
    }
    reply := Send(200, UserBody(user.value));
  }

  /** `createUser`: 201 with "User created" and the created projection, or
      the store error to `next`. */
  method CreateUser(svc: UserService, dto: CreateUserDto, hash: string -> string, newId: UserId, now: Timestamp)
    returns (reply: Reply)
    requires svc.Valid()
    modifies svc
    ensures svc.Valid()
    ensures Clashes(old(svc.users), newId, dto.username, dto.email) ==>
      reply == Next(UniqueViolation) && svc.users == old(svc.users)
    ensures !Clashes(old(svc.users), newId, dto.username, dto.email) ==>
      var u := NewUser(dto, newId, hash(dto.password), now);
      svc.users == old(svc.users) + [u] &&
      reply == Send(201, MessageWithUser("User created", CreatedView(u)))
  {
    var result := svc.CreateUser(dto, hash, newId, now);
    match result
    case Failure(err) => reply := Next(err);
    case Success(user) => reply := Send(201, MessageWithUser("User created", user));
  }

  /** `updateUser`: status 200 with "User updated" and the updated
      projection, or the store error to `next`; an unknown id is not
      turned into a 404. */
  method UpdateUser(svc: UserService, id: UserId, dto: UpdateUserDto) returns (reply: Reply)
    requires svc.Valid()
    modifies svc
    ensures svc.Valid()
    ensures Find(old(svc.users), id).None? ==> reply == Next(RecordNotFound) && svc.users == old(svc.users)
    ensures Find(old(svc.users), id).Some? ==>
      var k := Find(old(svc.users), id).value;
      svc.users == old(svc.users)[k := ApplyUpdate(old(svc.users)[k], dto)] &&
      reply == Send(200, MessageWithUser("User updated", UpdatedView(svc.users[k])))
  {
    var result := svc.UpdateUser(id, dto);
    match result
    case Failure(err) => reply := Next(err);
    case Success(user) => reply := Send(200, MessageWithUser("User updated", user));
  }

  /** `deactivateUser`: status 200 with only "User deactivated" (the row the
      service returns is not sent), or the store error to `next`. */
  method DeactivateUser(svc: UserService, id: UserId) returns (reply: Reply)
    requires svc.Valid()
    modifies svc
    ensures svc.Valid()
    ensures Find(old(svc.users), id).None? ==> reply == Next(RecordNotFound) && svc.users == old(svc.users)
    ensures Find(old(svc.users), id).Some? ==>
      var k := Find(old(svc.users), id).value;
      svc.users == old(svc.users)[k := Deactivate(old(svc.users)[k])] &&
      reply == Send(200, Message("User deactivated"))
  {
    var result := svc.DeactivateUser(id);
    match result
    case Failure(err) => reply := Next(err);
    case Success(_) => reply := Send(200, Message("User deactivated"));
  }
}
