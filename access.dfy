/** Who may see and who may change an event: ownership and the permission table. */
module Access {
  import opened Domain

  /** The one role string the update gate looks for. */
  const EditorRole: string := "editor"

  predicate Matches(p: Permission, e: EventId, u: UserId)
  {
    p.eventId == e && p.userId == u
  }

  /** Some permission row, of any role, names user `u` on event `e`. */
  predicate HasPermission(perms: seq<Permission>, e: EventId, u: UserId)
  {
    exists i | 0 <= i < |perms| :: Matches(perms[i], e, u)
  }

  /** Some permission row names user `u` on event `e` with exactly `role`. */
  predicate HasRole(perms: seq<Permission>, e: EventId, u: UserId, role: string)
  {
    exists i | 0 <= i < |perms| :: Matches(perms[i], e, u) && perms[i].role == role
  }

  /** The unique constraint on (event_id, user_id): no two rows name the same pair. */
  predicate Unique(perms: seq<Permission>)
  {
    forall i, j | 0 <= i < j < |perms| :: !Matches(perms[j], perms[i].eventId, perms[i].userId)
  }

  /** Read gate, also the set of events the conflict check looks at: the owner, or any row. */
  predicate CanRead(ev: Event, perms: seq<Permission>, u: UserId)
  {
    ev.ownerId == u || HasPermission(perms, ev.id, u)
  }

  /** Update gate: the owner, or a row whose role is "editor". */
  predicate CanUpdate(ev: Event, perms: seq<Permission>, u: UserId)
  {
    ev.ownerId == u || HasRole(perms, ev.id, u, EditorRole)
  }

  /** Position of the first row naming (e, u), as a `.first()` query finds it. */
  function FirstRow(perms: seq<Permission>, e: EventId, u: UserId): (r: Option<nat>)
    ensures r.None? <==> !HasPermission(perms, e, u)
    ensures r.Some? ==> r.value < |perms| && Matches(perms[r.value], e, u)
    ensures r.Some? ==> forall i | 0 <= i < r.value :: !Matches(perms[i], e, u)
  {
    if perms == [] then None
    else if Matches(perms[0], e, u) then Some(0)
    else
      match FirstRow(perms[1..], e, u)
      case None =>
        assert forall i | 1 <= i < |perms| :: perms[i] == perms[1..][i - 1];
        None
      case Some(k) => Some(k + 1)
  }

  /** The role the table gives user `u` on event `e`, if any. */
  function RoleOf(perms: seq<Permission>, e: EventId, u: UserId): Option<string>
  {
    match FirstRow(perms, e, u)
    case None => None
    case Some(k) => Some(perms[k].role)
  }

  /** With one row per pair, the row naming (e, u) is the one the lookup finds. */
  lemma RoleOfRow(perms: seq<Permission>, e: EventId, u: UserId, i: nat)
    requires Unique(perms)
    requires i < |perms| && Matches(perms[i], e, u)
    ensures RoleOf(perms, e, u) == Some(perms[i].role)
  {
    var k := FirstRow(perms, e, u).value;
    assert k == i;
  }

  /** Role resolution as a table: the owner, a granted role, or nothing. */
  datatype Resolved = Owner | Granted(role: string) | NoAccess

  function Resolve(ev: Event, perms: seq<Permission>, u: UserId): Resolved
  {
    if ev.ownerId == u then Owner
    else
      match RoleOf(perms, ev.id, u)
      case None => NoAccess
      case Some(role) => Granted(role)
  }

  /** With one row per pair, the two gates are exactly the role table: any resolved access
      reads, and only the owner or an "editor" grant updates. */
  lemma ResolveAgreesWithGates(ev: Event, perms: seq<Permission>, u: UserId)
    requires Unique(perms)
    ensures CanRead(ev, perms, u) <==> Resolve(ev, perms, u) != NoAccess
    ensures CanUpdate(ev, perms, u) <==>
              (Resolve(ev, perms, u) == Owner || Resolve(ev, perms, u) == Granted(EditorRole))
  {
    if ev.ownerId != u && HasRole(perms, ev.id, u, EditorRole) {
      var i :| 0 <= i < |perms| && Matches(perms[i], ev.id, u) && perms[i].role == EditorRole;
      var k := FirstRow(perms, ev.id, u).value;
      assert k == i;
    }
  }

  /** A user whose row says "viewer" may read the event but, unless they own it, not update it. */
  lemma ViewerCannotUpdate(ev: Event, perms: seq<Permission>, u: UserId)
    requires Unique(perms)
    requires ev.ownerId != u
    requires RoleOf(perms, ev.id, u) == Some("viewer")
    ensures CanRead(ev, perms, u) && !CanUpdate(ev, perms, u)
  {
    ResolveAgreesWithGates(ev, perms, u);
  }
}
