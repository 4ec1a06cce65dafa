/** The permission table's writes: sharing (an upsert per named user), changing one row's
    role, revoking one row, and dropping an event's rows. */
module Sharing {
  import opened Domain
  import opened Access

  /** One step of the share loop: overwrite the role of the row naming (e, u), or add a row. */
  function Upsert(perms: seq<Permission>, e: EventId, u: UserId, role: string): seq<Permission>
  {
    match FirstRow(perms, e, u)
    case Some(k) => perms[k := perms[k].(role := role)]
    case None => perms + [Permission(e, u, role)]
  }

  /** An upsert keeps one row per pair, gives (e, u) the new role and leaves every other
      pair's role as it was. */
  lemma UpsertEffect(perms: seq<Permission>, e: EventId, u: UserId, role: string)
    requires Unique(perms)
    ensures Unique(Upsert(perms, e, u, role))
    ensures RoleOf(Upsert(perms, e, u, role), e, u) == Some(role)
    ensures forall e', u' | e' != e || u' != u ::
              RoleOf(Upsert(perms, e, u, role), e', u') == RoleOf(perms, e', u')
  {
    var r := Upsert(perms, e, u, role);
    match FirstRow(perms, e, u)
    case Some(k) =>
      assert forall i | 0 <= i < |r| :: r[i].eventId == perms[i].eventId && r[i].userId == perms[i].userId;
      RoleOfRow(r, e, u, k);
      forall e', u' | e' != e || u' != u ensures RoleOf(r, e', u') == RoleOf(perms, e', u') {
        if HasPermission(perms, e', u') {
          var i :| 0 <= i < |perms| && Matches(perms[i], e', u');
          RoleOfRow(perms, e', u', i);
          RoleOfRow(r, e', u', i);
        } else {
          assert !HasPermission(r, e', u');
        }
      }
    case None =>
      RoleOfRow(r, e, u, |perms|);
      forall e', u' | e' != e || u' != u ensures RoleOf(r, e', u') == RoleOf(perms, e', u') {
        if HasPermission(perms, e', u') {
          var i :| 0 <= i < |perms| && Matches(perms[i], e', u');
          RoleOfRow(perms, e', u', i);
          RoleOfRow(r, e', u', i);
        } else {
          assert !HasPermission(r, e', u');
        }
      }
  }

  /** The role the request gives user `u` last, if it names `u` at all. */
  function LastRole(users: seq<ShareUser>, u: UserId): Option<string>
  {
    if users == [] then None
    else if users[|users| - 1].userId == u then Some(users[|users| - 1].role)
    else LastRole(users[..|users| - 1], u)
  }

  /** The share loop over the request's users, skipping the sharer, where each lookup sees the
      rows the request already added. This is the behaviour the model uses. */
  function ShareAll(perms: seq<Permission>, e: EventId, sharer: UserId, users: seq<ShareUser>): seq<Permission>
    decreases |users|
  {
    if users == [] then perms
    else
      var prev := ShareAll(perms, e, sharer, users[..|users| - 1]);
      var last := users[|users| - 1];
      if last.userId == sharer then prev else Upsert(prev, e, last.userId, last.role)
  }

  /** After sharing there is still one row per pair; every user the request names (other than
      the sharer) holds the last role given for them; every other pair keeps its role. */
  lemma {:induction false} ShareAllEffect(perms: seq<Permission>, e: EventId, sharer: UserId, users: seq<ShareUser>)
    requires Unique(perms)
    ensures Unique(ShareAll(perms, e, sharer, users))
    ensures forall u | u != sharer && LastRole(users, u).Some? ::
              RoleOf(ShareAll(perms, e, sharer, users), e, u) == LastRole(users, u)
    ensures forall e', u' | e' != e || u' == sharer || LastRole(users, u').None? ::
              RoleOf(ShareAll(perms, e, sharer, users), e', u') == RoleOf(perms, e', u')
    decreases |users|
  {
    if users != [] {
      var init := users[..|users| - 1];
      var last := users[|users| - 1];
      ShareAllEffect(perms, e, sharer, init);
      var prev := ShareAll(perms, e, sharer, init);
      assert forall u | u != last.userId :: LastRole(users, u) == LastRole(init, u);
      if last.userId != sharer {
        UpsertEffect(prev, e, last.userId, last.role);
      }
    }
  }

  /** Sharing only touches rows of the shared event: every row afterwards names `e` or was
      already in the table. */
  lemma {:induction false} ShareAllRows(perms: seq<Permission>, e: EventId, sharer: UserId, users: seq<ShareUser>)
    ensures forall p | p in ShareAll(perms, e, sharer, users) :: p.eventId == e || p in perms
    decreases |users|
  {
    if users != [] {
      var init := users[..|users| - 1];
      ShareAllRows(perms, e, sharer, init);
      var prev := ShareAll(perms, e, sharer, init);
      var last := users[|users| - 1];
      if last.userId != sharer {
        var next := Upsert(prev, e, last.userId, last.role);
        forall p | p in next ensures p.eventId == e || p in prev {
          var i :| 0 <= i < |next| && next[i] == p;
          if i < |prev| && next[i] != prev[i] {
            assert Matches(prev[i], e, last.userId);
          }
        }
      }
    }
  }

  /** The share loop as written: the session does not flush before a query, so each lookup sees
      only the first `committed` rows (those stored before the request; their role changes are
      visible), and a row added by the request stays invisible to the later lookups. */
  function ShareAsWritten(perms: seq<Permission>, committed: nat, e: EventId, sharer: UserId,
                          users: seq<ShareUser>): (r: seq<Permission>)
    requires committed <= |perms|
    ensures |perms| <= |r|
    decreases |users|
  {
    if users == [] then perms
    else
      var prev := ShareAsWritten(perms, committed, e, sharer, users[..|users| - 1]);
      var last := users[|users| - 1];
      if last.userId == sharer then prev
      else
        match FirstRow(prev[..committed], e, last.userId)
        case Some(k) => prev[k := prev[k].(role := last.role)]
        case None => prev + [Permission(e, last.userId, last.role)]
  }

  /** Changing a role does not change which pairs the rows name. */
  lemma UniqueUnderRoleChange(perms: seq<Permission>, k: nat, role: string)
    requires k < |perms|
    ensures Unique(perms[k := perms[k].(role := role)]) ==> Unique(perms)
  {
    var w := perms[k := perms[k].(role := role)];
    if Unique(w) {
      forall i, j | 0 <= i < j < |perms| ensures !Matches(perms[j], perms[i].eventId, perms[i].userId) {
        assert Matches(w[i], perms[i].eventId, perms[i].userId);
        assert Matches(w[j], perms[j].eventId, perms[j].userId);
      }
    }
  }

  /** A row the lookup finds among the stored rows is also the first row of the whole table. */
  lemma PrefixHit(perms: seq<Permission>, c: nat, e: EventId, u: UserId)
    requires c <= |perms| && FirstRow(perms[..c], e, u).Some?
    ensures FirstRow(perms, e, u) == FirstRow(perms[..c], e, u)
  {
    var k := FirstRow(perms[..c], e, u).value;
    assert perms[..c][k] == perms[k];
  }

  /** A lookup that misses the stored rows and adds a row anyway keeps one row per pair only
      if the table had no row for the pair at all. */
  lemma PrefixMiss(perms: seq<Permission>, e: EventId, u: UserId, role: string)
    requires Unique(perms + [Permission(e, u, role)])
    ensures Unique(perms) && FirstRow(perms, e, u).None?
  {
    var w := perms + [Permission(e, u, role)];
    forall i, j | 0 <= i < j < |perms| ensures !Matches(perms[j], perms[i].eventId, perms[i].userId) {
      assert w[i] == perms[i] && w[j] == perms[j];
    }
    forall i | 0 <= i < |perms| ensures !Matches(perms[i], e, u) {
      assert w[i] == perms[i] && w[|perms|] == Permission(e, u, role);
    }
  }

  /** Whenever the loop as written leaves one row per pair, so that the commit goes through,
      its table is the corrected upsert's: the two loops differ only on requests the unique
      constraint refuses. */
  lemma {:induction false} ShareAsWrittenAgrees(perms: seq<Permission>, e: EventId, sharer: UserId,
                                               users: seq<ShareUser>)
    ensures var w := ShareAsWritten(perms, |perms|, e, sharer, users);
            Unique(w) ==> w == ShareAll(perms, e, sharer, users)
    decreases |users|
  {
    if users != [] {
      var init := users[..|users| - 1];
      var last := users[|users| - 1];
      var c := |perms|;
      var prev := ShareAsWritten(perms, c, e, sharer, init);
      ShareAsWrittenAgrees(perms, e, sharer, init);
      if last.userId != sharer {
        match FirstRow(prev[..c], e, last.userId)
        case Some(k) =>
          UniqueUnderRoleChange(prev, k, last.role);
          PrefixHit(prev, c, e, last.userId);
        case None =>
          if Unique(prev + [Permission(e, last.userId, last.role)]) {
            PrefixMiss(prev, e, last.userId, last.role);
          }
      }
    }
  }

  /** A request naming the same not-yet-shared user twice: as written it adds two rows for one
      pair, which the unique constraint then refuses at commit; the upsert gives one row with
      the last role. */
  lemma DuplicateShareAsWritten()
    ensures var users := [ShareUser(2, "viewer"), ShareUser(2, "editor")];
            ShareAsWritten([], 0, 1, 1, users) == [Permission(1, 2, "viewer"), Permission(1, 2, "editor")]
            && !Unique(ShareAsWritten([], 0, 1, 1, users))
            && ShareAll([], 1, 1, users) == [Permission(1, 2, "editor")]
  {
    var users := [ShareUser(2, "viewer"), ShareUser(2, "editor")];
    assert users[..1] == [ShareUser(2, "viewer")];
    assert users[..1][..0] == [];
    var one := [Permission(1, 2, "viewer")];
    assert ShareAsWritten([], 0, 1, 1, users[..1]) == one;
    assert one[..0] == [];
    assert ShareAll([], 1, 1, users[..1]) == one;
    assert Matches(one[0], 1, 2);
    var two := [Permission(1, 2, "viewer"), Permission(1, 2, "editor")];
    assert Matches(two[1], two[0].eventId, two[0].userId);
  }

  /** `delete` of one row: the row at position k leaves the table. */
  function RemoveRow(perms: seq<Permission>, k: nat): (r: seq<Permission>)
    requires k < |perms|
    ensures |r| == |perms| - 1
    ensures forall i | 0 <= i < k :: r[i] == perms[i]
    ensures forall i | k <= i < |r| :: r[i] == perms[i + 1]
  {
    perms[..k] + perms[k + 1..]
  }

  /** Revoking the row naming (e, u) leaves (e, u) without access, keeps one row per pair, and
      leaves every other pair's role as it was. */
  lemma RevokeEffect(perms: seq<Permission>, e: EventId, u: UserId)
    requires Unique(perms)
    requires HasPermission(perms, e, u)
    ensures var r := RemoveRow(perms, FirstRow(perms, e, u).value);
            Unique(r) && !HasPermission(r, e, u) &&
            forall e', u' | e' != e || u' != u :: RoleOf(r, e', u') == RoleOf(perms, e', u')
  {
    var k := FirstRow(perms, e, u).value;
    var r := RemoveRow(perms, k);
    forall i, j | 0 <= i < j < |r| ensures !Matches(r[j], r[i].eventId, r[i].userId) {
      var i' := if i < k then i else i + 1;
      var j' := if j < k then j else j + 1;
      assert r[i] == perms[i'] && r[j] == perms[j'] && i' < j';
    }
    forall i | 0 <= i < |r| ensures !Matches(r[i], e, u) {
      var i' := if i < k then i else i + 1;
      assert r[i] == perms[i'];
    }
    forall e', u' | e' != e || u' != u ensures RoleOf(r, e', u') == RoleOf(perms, e', u') {
      if HasPermission(perms, e', u') {
        var i :| 0 <= i < |perms| && Matches(perms[i], e', u');
        assert i != k;
        var i' := if i < k then i else i - 1;
        assert r[i'] == perms[i];
        RoleOfRow(perms, e', u', i);
        RoleOfRow(r, e', u', i');
      } else {
        forall i | 0 <= i < |r| ensures !Matches(r[i], e', u') {
          var i' := if i < k then i else i + 1;
          assert r[i] == perms[i'];
        }
      }
    }
  }

  /** The table with every row of event `e` removed (delete of an event). */
  function DropPermissions(perms: seq<Permission>, e: EventId): seq<Permission>
  {
    if perms == [] then []
    else (if perms[0].eventId == e then [] else [perms[0]]) + DropPermissions(perms[1..], e)
  }

  /** Dropping an event's rows keeps exactly the other events' rows and one row per pair. */
  lemma {:induction false} DropPermissionsExact(perms: seq<Permission>, e: EventId)
    ensures forall p :: p in DropPermissions(perms, e) <==> p in perms && p.eventId != e
    ensures Unique(perms) ==> Unique(DropPermissions(perms, e))
  {
    if perms != [] {
      DropPermissionsExact(perms[1..], e);
      assert perms == [perms[0]] + perms[1..];
      if Unique(perms) {
        assert Unique(perms[1..]);
        var rest := DropPermissions(perms[1..], e);
        forall p | p in rest ensures !Matches(p, perms[0].eventId, perms[0].userId) {
          var k :| 0 <= k < |perms[1..]| && perms[1..][k] == p;
          assert perms[k + 1] == p;
        }
      }
    }
  }
}
