/** The read side of the user service: the `where` filter, the ordering by
    `created_at` descending, the `skip`/`take` window, the page count and
    the read projections. */
module UserQuery {
  import opened Wrappers
  import opened Text
  import opened UserTypes

  /** The `where` object of `getUsers`: active rows only and, when `search`
      is not empty, a case-insensitive match on username, email or full
      name. A missing full name matches nothing. */
  predicate Matches(u: User, search: string)
    ensures Matches(u, search) ==> u.isActive
    ensures search == "" ==> (Matches(u, search) <==> u.isActive)
  {
    u.isActive &&
    (search == "" ||
     ContainsIgnoreCase(u.username, search) ||
     ContainsIgnoreCase(u.email, search) ||
     (u.fullName.Some? && ContainsIgnoreCase(u.fullName.value, search)))
  }

  /** With a non-empty search term, a row matches exactly when it is active
      and the lower-cased term occurs at some position of the lower-cased
      username, email or full name. */
  lemma {:induction false} MatchesIff(u: User, search: string)
    requires search != ""
    ensures Matches(u, search) <==>
      u.isActive &&
      (Occurs(Lower(u.username), Lower(search)) ||
       Occurs(Lower(u.email), Lower(search)) ||
       (u.fullName.Some? && Occurs(Lower(u.fullName.value), Lower(search))))
  {
    ContainsIff(Lower(u.username), Lower(search));
    ContainsIff(Lower(u.email), Lower(search));
    if u.fullName.Some? {
      ContainsIff(Lower(u.fullName.value), Lower(search));
    }
  }

  /** Searching "jones" finds an active user whose full name is
      "Carol Jones", and never an inactive one. */
  lemma SearchMatchesFullNameIgnoringCase(carol: User)
    requires carol.fullName == Some("Carol Jones")
    ensures Matches(carol, "jones") <==> carol.isActive
  {
    CarolJonesContainsJones(carol.fullName.value, "jones");
  }

  /** The rows that satisfy the filter, in table order, each as often as it
      is stored. */
  function Filter(users: seq<User>, search: string): (r: seq<User>)
    ensures |r| <= |users|
    ensures forall u :: u in r <==> u in users && Matches(u, search)
    ensures forall u :: multiset(r)[u] == if Matches(u, search) then multiset(users)[u] else 0
  {
    if users == [] then []
    else
      assert users == [users[0]] + users[1..];
      (if Matches(users[0], search) then [users[0]] else []) + Filter(users[1..], search)
  }

  predicate SortedByCreatedDesc(s: seq<User>)
  {
    forall i, j :: 0 <= i < j < |s| ==> s[i].createdAt >= s[j].createdAt
  }

  function InsertByCreatedDesc(u: User, s: seq<User>): (r: seq<User>)
    requires SortedByCreatedDesc(s)
    ensures SortedByCreatedDesc(r)
    ensures multiset(r) == multiset(s) + multiset{u}
  {
    if s == [] || u.createdAt >= s[0].createdAt then
      PrependSorted(u, s);
      [u] + s
    else
      var rest := InsertByCreatedDesc(u, s[1..]);
      assert s == [s[0]] + s[1..];
      SortedHead(s);
      forall x | x in rest ensures x.createdAt <= s[0].createdAt {
        assert x in multiset(s[1..]) + multiset{u};
        if x != u { assert x in s[1..]; }
      }
      PrependSorted(s[0], rest);
      [s[0]] + rest
  }

  lemma SortedHead(s: seq<User>)
    requires SortedByCreatedDesc(s) && s != []
    ensures forall y :: y in s[1..] ==> y.createdAt <= s[0].createdAt
  {
    forall y | y in s[1..] ensures y.createdAt <= s[0].createdAt {
      var j :| 0 <= j < |s[1..]| && s[1..][j] == y;
      assert s[j + 1] == y;
    }
  }

  lemma PrependSorted(x: User, t: seq<User>)
    requires SortedByCreatedDesc(t)
    requires forall y :: y in t ==> y.createdAt <= x.createdAt
    ensures SortedByCreatedDesc([x] + t)
  {
    var r := [x] + t;
    forall i, j | 0 <= i < j < |r| ensures r[i].createdAt >= r[j].createdAt {
      if i == 0 { assert r[j] in t; } else { assert r[i] == t[i - 1] && r[j] == t[j - 1]; }
    }
  }

  /** `orderBy: { created_at: "desc" }`: newest first; rows created at the
      same instant keep their table order. */
  function SortByCreatedDesc(s: seq<User>): (r: seq<User>)
    ensures SortedByCreatedDesc(r)
    ensures multiset(r) == multiset(s)
  {
    if s == [] then []
    else
      assert s == [s[0]] + s[1..];
      InsertByCreatedDesc(s[0], SortByCreatedDesc(s[1..]))
  }

  /** Prisma's `skip`/`take` window: with `take >= 0`, up to `take` rows
      from position `skip` on; with `take < 0`, up to `-take` rows ending
      `skip` rows before the end of the list. */
  function Window<T>(s: seq<T>, skip: nat, take: int): (r: seq<T>)
    ensures |r| == Min(Abs(take), Max(0, |s| - skip))
    ensures take >= 0 ==> forall k :: 0 <= k < |r| ==> r[k] == s[skip + k]
    ensures take < 0 ==> forall k :: 0 <= k < |r| ==> r[k] == s[|s| - skip - |r| + k]
  {
    if take >= 0 then
      if skip >= |s| then [] else s[skip..Min(skip + take, |s|)]
    else
      var end := Max(0, |s| - skip);
      s[Max(0, end + take)..end]
  }

  /** The window offset `skip = (page - 1) * limit`. */
  function Offset(page: int, limit: int): (skip: int)
    ensures page == 1 || limit == 0 ==> skip == 0
    ensures skip < 0 <==> (page < 1 && limit > 0) || (page > 1 && limit < 0)
  {
    (page - 1) * limit
  }

  /** `Math.ceil(a / b)` for a non-zero divisor. */
  function CeilDiv(a: nat, b: int): (k: int)
    requires b != 0
    ensures b > 0 ==> (k - 1) * b < a <= k * b
    ensures b < 0 ==> k * b <= a < (k - 1) * b
  {
    if b > 0 then
      CeilByPositive(a, b);
      (a + b - 1) / b
    else
      CeilByNegative(a, b);
      -(a / -b)
  }

  lemma CeilByPositive(a: nat, b: int)
    requires b > 0
    ensures var k := (a + b - 1) / b; (k - 1) * b < a <= k * b
  {
    var k := (a + b - 1) / b;
    assert a + b - 1 == k * b + (a + b - 1) % b;
    assert (k - 1) * b == k * b - b;
  }

  lemma CeilByNegative(a: nat, b: int)
    requires b < 0
    ensures var k := -(a / -b); k * b <= a < (k - 1) * b
  {
    var c := -b;
    var q := a / c;
    assert a == q * c + a % c;
    assert (-q) * b == q * c;
    assert (-q - 1) * b == q * c + c;
  }

  /** `totalPages`: `Math.ceil(totalRecords / limit)`. A zero limit gives
      Infinity or NaN, which the JSON response carries as `null`. */
  function TotalPages(total: nat, limit: int): (pages: Option<int>)
    ensures pages.None? <==> limit == 0
    ensures limit > 0 ==> (pages.value - 1) * limit < total <= pages.value * limit
    ensures limit != 0 && total == 0 ==> pages == Some(0)
  {
    if limit == 0 then None else Some(CeilDiv(total, limit))
  }

  /** For a positive limit, page `page` has rows exactly when it is one of
      the `totalPages` pages. */
  lemma {:induction false} PageHasRowsIff<T>(s: seq<T>, page: int, limit: int)
    requires page >= 1 && limit >= 1
    ensures Offset(page, limit) >= 0
    ensures |Window(s, Offset(page, limit), limit)| > 0 <==> page <= CeilDiv(|s|, limit)
  {
    var k := CeilDiv(|s|, limit);
    var skip := Offset(page, limit);
    MulMonotone(0, page - 1, limit);
    if page <= k {
      MulMonotone(page - 1, k - 1, limit);
      assert skip < |s|;
    } else {
      MulMonotone(k, page - 1, limit);
      assert skip >= |s|;
    }
  }

  lemma MulMonotone(a: int, b: int, c: int)
    requires a <= b && c >= 0
    ensures a * c <= b * c
  {
  }

  /** The projection of `getUsers` and `getUserById`: everything but the
      password hash and `last_login`. */
  function ListView(u: User): (v: UserView)
    ensures v.id == u.id && v.username == u.username && v.email == u.email
    ensures v.isActive == Some(u.isActive) && v.createdAt == Some(u.createdAt)
  {
    UserView(u.id, u.shopId, u.username, u.email, u.fullName, u.phone, Some(u.isActive), Some(u.createdAt))
  }

  /** The projection of `createUser`: no `is_active`. */
  function CreatedView(u: User): (v: UserView)
    ensures v.id == u.id && v.username == u.username && v.email == u.email
    ensures v.isActive.None? && v.createdAt == Some(u.createdAt)
  {
    UserView(u.id, u.shopId, u.username, u.email, u.fullName, u.phone, None, Some(u.createdAt))
  }

  /** The projection of `updateUser`: no `created_at`. */
  function UpdatedView(u: User): (v: UserView)
    ensures v.id == u.id && v.username == u.username && v.email == u.email
    ensures v.isActive == Some(u.isActive) && v.createdAt.None?
  {
    UserView(u.id, u.shopId, u.username, u.email, u.fullName, u.phone, Some(u.isActive), None)
  }

  /** No projection shows the password hash or the last login: rows that
      differ only there give the same views. */
  lemma ViewsHideSecrets(u: User, passwordHash: string, lastLogin: Option<Timestamp>)
    ensures var w := u.(passwordHash := passwordHash, lastLogin := lastLogin);
      ListView(w) == ListView(u) && CreatedView(w) == CreatedView(u) && UpdatedView(w) == UpdatedView(u)
  {
  }

  function ListViews(s: seq<User>): (r: seq<UserView>)
    ensures |r| == |s| && forall k :: 0 <= k < |s| ==> r[k] == ListView(s[k])
  {
    seq(|s|, k requires 0 <= k < |s| => ListView(s[k]))
  }

  /** `findUnique({ where: { id } })`: the position of the first row with
      the id, if any. */
  function Find(users: seq<User>, id: UserId): (r: Option<nat>)
    ensures r.Some? ==> r.value < |users| && users[r.value].id == id
    ensures r.Some? ==> forall k :: 0 <= k < r.value ==> users[k].id != id
    ensures r.None? ==> forall k :: 0 <= k < |users| ==> users[k].id != id
  {
    if users == [] then None
    else if users[0].id == id then Some(0)
    else match Find(users[1..], id)
      case None => None
      case Some(k) => Some(k + 1)
  }

  /** A new row at the end of a table that lacks its id is found there. */
  lemma {:induction false} FindAppended(users: seq<User>, u: User)
    requires forall k :: 0 <= k < |users| ==> users[k].id != u.id
    ensures Find(users + [u], u.id) == Some(|users|)
  {
    if users != [] {
      FindAppended(users[1..], u);
      assert (users + [u])[1..] == users[1..] + [u];
    }
  }

  /** Finding looks only at ids: tables that agree on every row's id agree
      on every lookup. */
  lemma {:induction false} FindSeesOnlyIds(users: seq<User>, other: seq<User>, id: UserId)
    requires |users| == |other|
    requires forall k :: 0 <= k < |users| ==> users[k].id == other[k].id
    ensures Find(users, id) == Find(other, id)
  {
    if users != [] {
      FindSeesOnlyIds(users[1..], other[1..], id);
    }
  }
}
