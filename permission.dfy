/** The `permit(...requiredPermissions)` middleware: every required
    permission must be in the claim's permission list. */
module PermissionGate {
  import opened Wrappers
  import opened Auth

  const PermissionDenied: Outcome := Reject(403, "Permission denied")
  const InsufficientPermissions: Outcome := Reject(403, "Insufficient permissions")

  /** `required.every(p => granted.includes(p))`. */
  function Every(required: seq<string>, granted: seq<string>): (b: bool)
    ensures b <==> forall p :: p in required ==> p in granted
  {
    if required == [] then true
    else required[0] in granted && Every(required[1..], granted)
  }

  /** A claim with a permission list (an empty list counts: `[]` is truthy). */
  predicate HasPermissionList(user: Option<Claim>)
  {
    user.Some? && user.value.permissions.Some?
  }

  function Permit(required: seq<string>, user: Option<Claim>): (out: Outcome)
    ensures out == Continue || out == PermissionDenied || out == InsufficientPermissions
    ensures out == PermissionDenied <==> !HasPermissionList(user)
    ensures out == Continue <==>
      HasPermissionList(user) && forall p :: p in required ==> p in user.value.permissions.value
  {
    if !HasPermissionList(user) then PermissionDenied
    else if !Every(required, user.value.permissions.value) then InsufficientPermissions
    else Continue
  }

  /** The outcome depends only on which permissions are required, not on
      their order or repetition. */
  lemma PermitOrderIndependent(required: seq<string>, other: seq<string>, user: Option<Claim>)
    requires forall p :: p in required <==> p in other
    ensures Permit(required, user) == Permit(other, user)
  {
  }

  /** Granting more permissions never turns a pass into a refusal. */
  lemma PermitMonotone(required: seq<string>, id: int, role: Option<string>, granted: seq<string>, more: seq<string>)
    requires forall p :: p in granted ==> p in more
    requires Permit(required, Some(Claim(id, role, Some(granted)))) == Continue
    ensures Permit(required, Some(Claim(id, role, Some(more)))) == Continue
  {
  }

  /** With nothing required, any claim with a permission list passes. */
  lemma NothingRequiredPasses(user: Option<Claim>)
    requires HasPermissionList(user)
    ensures Permit([], user) == Continue
  {
  }

  /** A partial match is not enough: holding "users:read" does not pass a
      gate that requires "users:read" and "users:write". */
  lemma PartialMatchRefused(id: int)
    ensures Permit(["users:read", "users:write"], Some(Claim(id, None, Some(["users:read"])))) == InsufficientPermissions
  {
    assert "users:write" != "users:read" by { assert "users:write"[6] != "users:read"[6]; }
    assert "users:write" !in ["users:read"];
  }
}
