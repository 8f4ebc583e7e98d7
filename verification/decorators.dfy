/**
 * `role_required` (backend/app/utils/decorators.py): the gate every admin, doctor and
 * patient route passes before its handler runs. JWT verification is outside the model;
 * the token's identity arrives as `currentUserId`.
 */
module Decorators {
  import opened Wrappers
  import opened Models
  import opened Api

  /** The caller may run the handler: the account exists, is active and has an allowed role. */
  ghost predicate Admitted(users: seq<User>, currentUserId: nat, allowed: set<Role>) {
    exists k :: 0 <= k < |users| && users[k].id == currentUserId
      && (forall j :: 0 <= j < k ==> users[j].id != currentUserId)
      && users[k].isActive && users[k].role in allowed
  }

  /**
   * The checks in their order: an unknown account is 404, an inactive one 403 whatever
   * its role, then a role outside `allowed` 403. `Ok` carries the caller's row.
   */
  function Authorize(users: seq<User>, currentUserId: nat, allowed: set<Role>): (r: Result<nat, Failure>)
    ensures r.Ok? <==> Admitted(users, currentUserId, allowed)
    ensures r.Ok? ==> r.value < |users| && users[r.value].id == currentUserId
    ensures FindUser(users, currentUserId).None? <==> r == Err(NotFound("User not found"))
    ensures r == Err(Forbidden("Account is inactive"))
      <==> FindUser(users, currentUserId).Some? && !users[FindUser(users, currentUserId).value].isActive
    ensures r == Err(Forbidden("Access denied"))
      <==> (var k := FindUser(users, currentUserId); k.Some? && users[k.value].isActive && users[k.value].role !in allowed)
  {
    match FindUser(users, currentUserId)
    case None => Err(NotFound("User not found"))
    case Some(k) =>
      FirstUser(users, currentUserId, k);
      if !users[k].isActive then Err(Forbidden("Account is inactive"))
      else if users[k].role !in allowed then Err(Forbidden("Access denied"))
      else Ok(k)
  }

  /** `User.query.get` finds the first row with the id. */
  lemma {:induction false} FirstUser(users: seq<User>, id: nat, k: nat)
    requires FindUser(users, id) == Some(k)
    ensures forall j :: 0 <= j < k ==> users[j].id != id
  {
    if users[0].id != id {
      FirstUser(users[1..], id, k - 1);
      assert forall j :: 1 <= j < k ==> users[j] == users[1..][j - 1];
    }
  }

  /** The decorated route: the gate's error, or exactly what the handler answers. */
  function Guarded<T>(users: seq<User>, currentUserId: nat, allowed: set<Role>, handler: Result<T, Failure>): (r: Result<T, Failure>)
    ensures Admitted(users, currentUserId, allowed) ==> r == handler
    ensures !Admitted(users, currentUserId, allowed) ==> r.Err? && r.error.code in {403, 404}
  {
    match Authorize(users, currentUserId, allowed)
    case Ok(_) => handler
    case Err(e) => Err(e)
  }

  /** An inactive account is turned away as inactive even when its role is not allowed either. */
  lemma InactiveBeforeRole(users: seq<User>, k: nat, allowed: set<Role>)
    requires k < |users| && FindUser(users, users[k].id) == Some(k) && !users[k].isActive
    ensures Authorize(users, users[k].id, allowed) == Err(Forbidden("Account is inactive"))
  {
  }
}
