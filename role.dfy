/** The `authorize(...allowedRoles)` middleware: a role allow-list over the
    claim that `authenticate` attached. */
module RoleGate {
  import opened Wrappers
  import opened Auth

  const AccessDenied: Outcome := Reject(403, "Access denied")
  const RoleNotAllowed: Outcome := Reject(403, "You do not have permission to perform this action")

  /** JavaScript truthiness of `req.user && req.user.role`: a claim with a
      role that is not the empty string. */
  predicate HasRole(user: Option<Claim>)
  {
    user.Some? && user.value.role.Some? && user.value.role.value != ""
  }

  function Authorize(allowedRoles: seq<string>, user: Option<Claim>): (out: Outcome)
    ensures out == Continue || out == AccessDenied || out == RoleNotAllowed
    ensures out == AccessDenied <==> !HasRole(user)
    ensures out == Continue <==> HasRole(user) && user.value.role.value in allowedRoles
  {
    if !HasRole(user) then AccessDenied
    else if user.value.role.value !in allowedRoles then RoleNotAllowed
    else Continue
  }

  /** With no allowed roles every request is refused. */
  lemma EmptyAllowListDenies(user: Option<Claim>)
    ensures Authorize([], user) != Continue
  {
  }

  /** Only the set of allowed roles matters, not their order or repetition,
      and allowing more roles never turns a pass into a refusal. */
  lemma AuthorizeMonotone(allowed: seq<string>, more: seq<string>, user: Option<Claim>)
    requires forall r :: r in allowed ==> r in more
    requires Authorize(allowed, user) == Continue
    ensures Authorize(more, user) == Continue
  {
  }

  /** Role names are compared exactly: "admin" does not pass a gate for
      "ADMIN", and a cashier does not pass it either. */
  lemma RoleMatchIsExact(id: int)
    ensures Authorize(["ADMIN"], Some(Claim(id, Some("admin"), None))) == RoleNotAllowed
    ensures Authorize(["ADMIN"], Some(Claim(id, Some("CASHIER"), None))) == RoleNotAllowed
    ensures Authorize(["ADMIN"], Some(Claim(id, Some("ADMIN"), None))) == Continue
  {
    assert "admin" != "ADMIN" by { assert "admin"[0] != "ADMIN"[0]; }
    assert "CASHIER" != "ADMIN" by { assert "CASHIER"[0] != "ADMIN"[0]; }
  }

  /** An empty role string is refused as if no role were given, even when
      the empty string is on the allow list. */
  lemma EmptyRoleIsAbsent(id: int, allowed: seq<string>)
    ensures Authorize(allowed, Some(Claim(id, Some(""), None))) == AccessDenied
  {
  }
}
