# User management core of Smart-Inventory-Control-System, in Dafny

This project models the part of the retail back end that makes decisions:

- the `authenticate` middleware (bearer-header check, token extraction, attaching the verified claim to the request);
- the two access gates `authorize(...roles)` and `permit(...permissions)`;
- the user service (`getUsers` with search, ordering, pagination and a count; `getUserById`; `createUser`; `updateUser`; `deactivateUser`) over a user table;
- the user controller (defaulting of `page`, `limit` and `search`, and the mapping of each service result to a status and a JSON body or to `next(err)`);
- the user record, the create and update request shapes, and the store's uniqueness and default rules.

Modules, one per source file or concern:

| file | module | models |
|---|---|---|
| `wrappers.dfy` | `Wrappers` | `Option`, `Result`, small integer helpers |
| `text.dfy` | `Text` | ASCII lower-casing, substring search, `startsWith`, `split(" ")` and `join` |
| `auth.dfy` | `Auth` | `src/middlewares/auth.middleware.ts` |
| `role.dfy` | `RoleGate` | `src/middlewares/role.middleware.ts` |
| `permission.dfy` | `PermissionGate` | `src/middlewares/permission.middleware.ts` |
| `users_types.dfy` | `UserTypes` | `src/modules/users/users.types.ts` |
| `users_model.dfy` | `UserModel` | `src/modules/users/users.model.ts`, and the row changes of update and deactivate |
| `users_query.dfy` | `UserQuery` | the read side of `src/modules/users/users.service.ts` |
| `users_service.dfy` | `UsersService` | `src/modules/users/users.service.ts` as a class over the table |
| `users_controller.dfy` | `UsersController` | `src/modules/users/users.controller.ts` |

Collaborators are abstracted as follows:

- The user table is the field `users: seq<User>` of the `UserService` object. The create, update and deactivate methods reassign it.
- `jwt.verify` with the process secret is a parameter `verify: string -> Option<Claim>`. `None` stands for every failure it throws on: bad signature, expiry, bad structure.
- `bcrypt.hash(password, 10)` is a parameter `hash: string -> string`. A salted hash is such a function once its salt is fixed.
- The clock behind `created_at` is a parameter `now`. The id the store generates for a new row is a parameter `newId`.
- Query parameters arrive already parsed as `Option<int>`. `None` stands for a missing value or one that `Number` turns into NaN.

The model keeps these behaviours of the code:

- No failure of the user module is classified. An unknown id on update or deactivate, and a duplicate username, email or id on create, reach `next(err)`; no 404 or 409 is produced. The controllers forward the store error unchanged (`Reply.Next`).
- The page and limit are not clamped to be at least 1. `Number(q) || 1` replaces only 0 and NaN, so a negative page reaches the service. With a positive limit that gives a negative `skip`, which the store refuses.
- The store behaviour the service relies on is stated explicitly:
  - a negative `skip` is an error;
  - a negative `take` returns up to `-take` rows ending `skip` rows before the end of the ordered list (the store's backward pagination);
  - a zero `limit` makes `Math.ceil(total / 0)` Infinity or NaN, which JSON sends as `null` (`totalPages == None`).
  Through the controller the limit is never 0.
- `users.service.ts` imports `GetUsersQuery` from `users.types.ts`, but that file does not declare it. The model takes the three fields `page`, `limit` and `search`.
- The service's `deactivateUser` returns the whole updated row, password hash included. Only the controller keeps it out of the response. `getUsers`, `getUserById`, `createUser` and `updateUser` return projections that have no password field (`UserView`).
- The schema in `users.model.ts` (a document-store schema) and the queries in `users.service.ts` (the Prisma client) describe the same table. The model takes the uniqueness and default rules from the schema and the query semantics from the service.

## Model

| member | source | states |
|---|---|---|
| `Text.Lower` | src/modules/users/users.service.ts:21-23 | case folding keeps the length and lower-cases each ASCII letter at its position |
| `Text.ContainsIff` | src/modules/users/users.service.ts:21-23 | the left-to-right substring scan holds exactly when the needle occurs at some position of the text |
| `Text.CarolJonesContainsJones` | src/modules/users/users.service.ts:23 | "jones" is found in "Carol Jones" when case is ignored |
| `Text.Split` | src/middlewares/auth.middleware.ts:16 | `split(" ")` gives at least one piece and no piece contains the separator |
| `Text.JoinSplit` | src/middlewares/auth.middleware.ts:16 | joining the pieces of a split with the separator gives back the original string |
| `Text.SplitJoin` | src/middlewares/auth.middleware.ts:16 | splitting a join of separator-free pieces gives back exactly those pieces |
| `Text.SplitAfterWord` | src/middlewares/auth.middleware.ts:16 | a separator-free word, then the separator, then a rest, splits into the word followed by the pieces of the rest |
| `Text.SplitHead` | src/middlewares/auth.middleware.ts:16 | the first piece is the prefix up to the first separator, or the whole string when there is none |
| `Auth.AuthRequest.constructor` | src/middlewares/auth.middleware.ts:4-6 | a request carries its `Authorization` header and starts without a user claim |
| `Auth.BearerToken` | src/middlewares/auth.middleware.ts:10-16 | a token exists iff the header is present and starts with the exact, case-sensitive "Bearer "; it is the text after the prefix up to the next space or the end, and contains no space |
| `Auth.Authenticate` | src/middlewares/auth.middleware.ts:8-29 | exactly one outcome: 401 "Unauthorized" iff no bearer token; 401 "Invalid or expired token" iff the verifier rejects the token; otherwise `req.user` becomes the verified claim and the request continues; `req.user` is untouched on a 401 |
| `Auth.MissingHeaderIsUnauthorized` | src/middlewares/auth.middleware.ts:12-13 | a request without an Authorization header gets no token, hence a 401 "Unauthorized" |
| `Auth.LowerCaseSchemeRefused` | src/middlewares/auth.middleware.ts:12 | a header starting "bearer " (lower case) yields no token |
| `Auth.TokenAfterPrefix` | src/middlewares/auth.middleware.ts:16 | for "Bearer " followed by a space-free token, exactly that token is verified |
| `RoleGate.HasRole` | src/middlewares/role.middleware.ts:6 | a claim whose role is present and not the empty string, the truthiness of `req.user && req.user.role` |
| `RoleGate.Authorize` | src/middlewares/role.middleware.ts:4-18 | three outcomes only; 403 "Access denied" iff there is no claim or its role is absent or empty; the request continues iff the role is on the allow list; otherwise 403 "You do not have permission to perform this action" |
| `RoleGate.EmptyAllowListDenies` | src/middlewares/role.middleware.ts:10 | an empty allow list refuses every request |
| `RoleGate.AuthorizeMonotone` | src/middlewares/role.middleware.ts:10 | allowing more roles, or listing them in another order or repeated, never turns a pass into a refusal |
| `RoleGate.RoleMatchIsExact` | src/middlewares/role.middleware.ts:10-13 | against `authorize("ADMIN")`, "admin" and "CASHIER" are refused with the second message and "ADMIN" passes |
| `RoleGate.EmptyRoleIsAbsent` | src/middlewares/role.middleware.ts:6-7 | an empty role string gets "Access denied", even when "" is on the allow list |
| `PermissionGate.Every` | src/middlewares/permission.middleware.ts:10-12 | the `every(... includes ...)` scan holds iff every required permission is in the granted list |
| `PermissionGate.HasPermissionList` | src/middlewares/permission.middleware.ts:6 | a claim that carries a permission list; an empty list counts, since `[]` is truthy |
| `PermissionGate.Permit` | src/middlewares/permission.middleware.ts:4-22 | three outcomes only; 403 "Permission denied" iff there is no claim or it has no permission list; the request continues iff every required permission is granted; otherwise 403 "Insufficient permissions" |
| `PermissionGate.PermitOrderIndependent` | src/middlewares/permission.middleware.ts:10-12 | the outcome depends only on the set of required permissions, not their order or repetition |
| `PermissionGate.PermitMonotone` | src/middlewares/permission.middleware.ts:10-12 | granting more permissions never turns a pass into a refusal |
| `PermissionGate.NothingRequiredPasses` | src/middlewares/permission.middleware.ts:10-12 | with nothing required, any claim that has a permission list passes, an empty list included |
| `PermissionGate.PartialMatchRefused` | src/middlewares/permission.middleware.ts:14-17 | holding only "users:read" against "users:read" and "users:write" gives 403 "Insufficient permissions" |
| `UserModel.UniqueKeys` | src/modules/users/users.model.ts:6-7 | no two rows share an id, a username or an email; so a row sharing any of them with a row of the table is that row |
| `UserModel.Clashes` | src/modules/users/users.model.ts:6-7 | some row of the table already holds the id, the username or the email, which makes the store refuse the insert |
| `UserModel.NewUser` | src/modules/users/users.service.ts:84-92 | the inserted row has the given id, the DTO's fields (shop, username, email, full name, phone), the given hash in place of the password, `is_active` true and `created_at` now as the schema defaults (users.model.ts lines 11 and 13), and no last login |
| `UserModel.Deactivate` | src/modules/users/users.service.ts:130 | the row becomes inactive and every other field is kept |
| `UserModel.ApplyUpdate` | src/modules/users/users.types.ts:24-28 | an update never changes id, shopId, username, email, password hash, last login or creation time; each present DTO field overwrites, each absent one is kept |
| `UserModel.DeactivateIsUpdate` | src/modules/users/users.service.ts:127-131 | deactivation is the partial update `{is_active: false}` |
| `UserModel.ApplyUpdateIdempotent` | src/modules/users/users.service.ts:108-111 | applying the same update twice equals applying it once, and an empty update changes nothing |
| `UserModel.InsertKeepsKeysUnique` | src/modules/users/users.model.ts:6-7 | appending a row whose id, username and email are all unused keeps every key unique |
| `UserModel.ReplaceKeepsKeysUnique` | src/modules/users/users.model.ts:6-7 | replacing a row by one with the same keys keeps every key unique |
| `UserQuery.Matches` | src/modules/users/users.service.ts:17-26 | the `where` object: a matching row is active, and with an empty search every active row matches |
| `UserQuery.MatchesIff` | src/modules/users/users.service.ts:17-25 | for a non-empty term, a row matches iff it is active and the lower-cased term occurs in the lower-cased username, email or present full name |
| `UserQuery.SearchMatchesFullNameIgnoringCase` | src/modules/users/users.service.ts:19-25 | a user named "Carol Jones" matches "jones" exactly when active |
| `UserQuery.Filter` | src/modules/users/users.service.ts:17-26 | a row is kept iff it matches the filter, and each kept row appears as often as it is stored |
| `UserQuery.InsertByCreatedDesc` | src/modules/users/users.service.ts:33 | inserting into a newest-first list keeps it newest first and adds exactly the one row |
| `UserQuery.SortByCreatedDesc` | src/modules/users/users.service.ts:33 | the ordering is newest first by `created_at` and is a permutation of its input |
| `UserQuery.Window` | src/modules/users/users.service.ts:31-32 | `skip`/`take` gives `min(abs(take), max(0, n - skip))` rows; with `take >= 0` they start at position `skip`, otherwise they end `skip` rows before the end |
| `UserQuery.Offset` | src/modules/users/users.service.ts:15 | `skip` is 0 on page 1 and for limit 0, and negative exactly when page and limit lie on opposite sides of 1 and 0 |
| `UserQuery.CeilDiv` | src/modules/users/users.service.ts:54 | `Math.ceil(a / b)` is the integer `k` with `(k-1)*b < a <= k*b` for `b > 0`, and the mirrored bounds for `b < 0` |
| `UserQuery.TotalPages` | src/modules/users/users.service.ts:54 | `null` exactly for limit 0; for a positive limit the number of pages `k` with `(k-1)*limit < total <= k*limit`; 0 pages when nothing matches |
| `UserQuery.PageHasRowsIff` | src/modules/users/users.service.ts:15 | for `page >= 1` and `limit >= 1` the offset is non-negative, and the page has rows iff `page <= totalPages` |
| `UserQuery.ListView` | src/modules/users/users.service.ts:34-43 | the list and by-id projection keeps the keys, `is_active` and `created_at` (the same `select` is at lines 65-74) |
| `UserQuery.CreatedView` | src/modules/users/users.service.ts:93-101 | the create projection keeps the keys and `created_at` and has no `is_active` |
| `UserQuery.UpdatedView` | src/modules/users/users.service.ts:112-120 | the update projection keeps the keys and `is_active` and has no `created_at` |
| `UserQuery.ViewsHideSecrets` | src/modules/users/users.service.ts:34-43 | none of the three projections depends on the password hash or the last login |
| `UserQuery.ListViews` | src/modules/users/users.service.ts:34-43 | every returned row is the list projection of the row at the same position |
| `UserQuery.Find` | src/modules/users/users.service.ts:62-64 | the lookup returns the first position holding the id, or nothing when no row has it |
| `UserQuery.FindAppended` | src/modules/users/users.service.ts:84-92 | a row appended to a table that lacks its id is found at the end |
| `UserQuery.FindSeesOnlyIds` | src/modules/users/users.service.ts:62-64 | tables that agree on every row's id agree on every lookup |
| `UsersService.PageRows` | src/modules/users/users.service.ts:28-46 | a page has at most `abs(take)` rows, newest first, each the projection of an active matching row; for `take >= 0` it is the slice starting at `skip`, and for `take < 0` the `-take` rows ending `skip` rows before the end of the ordered matches |
| `UsersService.DeactivateTwice` | src/modules/users/users.service.ts:127-131 | after one deactivation the id is still found at the same place, and a second deactivation leaves the table as it is |
| `UsersService.UserService.GetUsers` | src/modules/users/users.service.ts:14-57 | fails iff `(page-1)*limit < 0`; otherwise the page and limit are echoed, `totalRecords` is the size of the whole filtered set, `totalPages` is `ceil(totalRecords/limit)` (`null` for limit 0), the data has at most `abs(limit)` rows, all active matching rows, newest first, and for `page, limit >= 1` exactly the slice `[skip, skip+limit)` of the ordered matches; for a negative limit, the `-limit` ordered matches that end `skip` rows before the end |
| `UsersService.UserService.GetUserById` | src/modules/users/users.service.ts:62-76 | nothing iff no row has the id; otherwise the list projection of the first row with that id, inactive rows included |
| `UsersService.UserService.CreateUser` | src/modules/users/users.service.ts:81-103 | a taken id, username or email fails and leaves the table; otherwise exactly one row is appended with the DTO's fields, `hash(password)` as hash, `is_active` true, `created_at` now and no last login, and the result is its projection without `is_active` |
| `UsersService.UserService.UpdateUser` | src/modules/users/users.service.ts:108-122 | an unknown id fails and changes nothing; otherwise only that row changes, by the partial update, and the result is its projection without `created_at` |
| `UsersService.UserService.DeactivateUser` | src/modules/users/users.service.ts:127-132 | an unknown id fails and changes nothing; otherwise only that row changes, by `is_active := false`, and the result is the whole updated row |
| `UsersService.CreateThenGet` | src/modules/users/users.service.ts:62-103 | creating a user and reading it back by id gives the submitted fields, `is_active` true and the creation time, with no password |
| `UsersService.CreateDuplicate` | src/modules/users/users.model.ts:6-7 | after a successful create, a second create with the same username or email fails, and the table holds the first row |
| `UsersController.ParseUsersQuery` | src/modules/users/users.controller.ts:10-12 | page and limit keep any non-zero parsed value, negative ones included, and fall back to 1 and 10; search keeps the string and falls back to "" |
| `UsersController.DefaultQuery` | src/modules/users/users.controller.ts:10-12 | with no parameters the service is asked for page 1, limit 10 and no text filter |
| `UsersController.NegativePageGivesNegativeSkip` | src/modules/users/users.controller.ts:10 | a negative page with a positive or default limit reaches the service unclamped and gives a negative offset |
| `UsersController.GetUsers` | src/modules/users/users.controller.ts:4-24 | a store failure goes to `next` and nothing is sent; otherwise status 200 with the service's page: its `pagination` echoes the parsed page and limit with the match count and a `totalPages` that is always a number because the limit is never 0, and its rows are at most `abs(limit)` active matching rows newest first, exactly the slice at `(page-1)*limit` when page and limit are at least 1, and the backward window of `-limit` rows when the limit is negative |
| `UsersController.GetUserById` | src/modules/users/users.controller.ts:27-37 | 404 "User not found" iff no row has the id; otherwise status 200 with the projection of that row |
| `UsersController.CreateUser` | src/modules/users/users.controller.ts:39-50 | a clash goes to `next` with the table unchanged; otherwise 201 with `{message: "User created", user}` and the row appended |
| `UsersController.UpdateUser` | src/modules/users/users.controller.ts:52-63 | an unknown id goes to `next`, not to a 404; otherwise 200 with `{message: "User updated", user}` and only that row updated |
| `UsersController.DeactivateUser` | src/modules/users/users.controller.ts:65-76 | an unknown id goes to `next`; otherwise 200 with only `{message: "User deactivated"}`, no row, and only that row deactivated |

## Left out

- `bcrypt.hash` is an opaque parameter. None of its cryptographic properties (one-wayness, salting, cost factor) is modelled. The code contains no password-verification call, so none is modelled.
- `jwt.verify` and `JWT_SECRET` form an oracle. Signature and expiry checking are foreign calls. A payload that decodes to something other than a claim object is not modelled.
- The database client, the document-store model object, the connection set-up and the `DATABASE_URL` check are replaced by the in-memory table. These are foreign code and I/O.
- `Promise.all` in `getUsers` runs its two reads concurrently. In the model they are two reads of the same table snapshot. Concurrency is outside the model.
- Routing and the app shell are left out: CORS, body parsing, the health check, the 404 and 500 handlers. The authentication and role gates are commented out on the user routes, so no route-level gating is modelled. They are framework wiring.
- `Number(...)` parsing of query strings, including fractions such as "2.5", is left out. A repeated `search` parameter that arrives as an array is left out too. Parameters are taken as already parsed values.
- Case-insensitive search is ASCII lower-casing. Locale and Unicode case folding are not modelled. The search term is matched as a literal substring.
- Request bodies are taken as the typed `CreateUserDto` and `UpdateUserDto`. At run time the controller passes `req.body` unchecked. Extra fields such as `username` in an update, explicit `null` values and missing required fields are not modelled. These are runtime shapes that the declared types exclude.
- `last_login` is never set by any code path. It stays `None` on every created row.
- The schema's `required: true` also rejects empty strings in the document store. The model only makes those fields non-optional.
- Rows with the same `created_at` are ordered by table position. The store leaves their order unspecified.
- UsersService.UserService.GetUsers: the offset `(page-1)*limit` is computed on unbounded integers. JavaScript's floating-point arithmetic beyond 2^53 is not modelled. Store failures other than a negative offset (a lost connection) are not modelled either.
- UsersService.UserService.GetUserById: the lookup never fails in the model. The `next(err)` path of the `getUserById` controller for a store read error is therefore not modelled.
