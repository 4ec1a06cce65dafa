/** The event store and its route handlers, with the HTTP layer removed: each handler takes the
    acting user's id and returns a value or an error kind. */
module EventStore {
  import opened Domain
  import opened Access
  import opened Conflicts
  import opened Versioning
  import opened Sharing
  import opened Notifications

  const UpdatedMessage: string := "Event has been updated."
  const DeletedMessage: string := "An event you were part of has been deleted."
  const SharedMessage: string := "You have been granted access to an event."

  function Digit(d: nat): char
    requires d < 10
  {
    "0123456789"[d]
  }

  /** Decimal digits of a natural number. */
  function Natural(n: nat): string
  {
    if n < 10 then [Digit(n)] else Natural(n / 10) + [Digit(n % 10)]
  }

  /** `str(n)` for an integer. */
  function Decimal(n: int): string
  {
    if n < 0 then "-" + Natural(-n) else Natural(n)
  }

  function RolledBackMessage(vid: VersionId): string
  {
    "Event was rolled back to version " + Decimal(vid) + "."
  }

  /** The events, permissions, event_versions and notifications tables, with the counters that
      stand for the id sequences and for the clock. */
  class Store {
    var events: map<EventId, Event>
    var permissions: seq<Permission>
    var versions: seq<Version>
    var notifications: seq<Notification>
    var clock: Time
    var nextEventId: EventId
    var nextVersionId: VersionId

    /** Every event is stored under its id, which the id sequence has already passed, and has its
        NOT NULL columns; one permission row per pair; no permission or version row outlives its
        event; the version log is in write order, every snapshot taken from a live event. */
    ghost predicate Valid()
      reads this
    {
      && (forall id | id in events :: events[id].id == id && id < nextEventId && Complete(events[id].fields))
      && Unique(permissions)
      && (forall p | p in permissions :: p.eventId in events)
      && (forall v | v in versions ::
            v.eventId in events && v.id < nextVersionId && v.updatedAt < clock && Complete(v.fields))
      && Chronological(versions)
    }

    constructor ()
      ensures Valid()
      ensures events == map[] && permissions == [] && versions == [] && notifications == []
    {
      events := map[];
      permissions := [];
      versions := [];
      notifications := [];
      clock := 0;
      nextEventId := 1;
      nextVersionId := 1;
    }

    /** The existence and read check shared by the read handlers: a missing event is NotFound
        before any access check, and any permission row grants read. */
    function ReadGate(actor: UserId, eventId: EventId): (o: Outcome)
      reads this
      ensures o == Pass <==> eventId in events && CanRead(events[eventId], permissions, actor)
      ensures eventId !in events ==> o == Fail(NotFound)
      ensures eventId in events && o.Fail? ==> o.error == Forbidden
    {
      if eventId !in events then Fail(NotFound)
      else if !CanRead(events[eventId], permissions, actor) then Fail(Forbidden)
      else Pass
    }

    /** The owner-only check. A missing event is reported as `missing`: NotFound for delete
        and rollback, Forbidden for share and the permission handlers. */
    function OwnerGate(actor: UserId, eventId: EventId, missing: Error): (o: Outcome)
      reads this
      ensures o == Pass <==> eventId in events && events[eventId].ownerId == actor
      ensures eventId !in events ==> o == Fail(missing)
      ensures eventId in events && o.Fail? ==> o.error == Forbidden
    {
      if eventId !in events then Fail(missing)
      else if events[eventId].ownerId != actor then Fail(Forbidden)
      else Pass
    }

    /** `notify_event_participants`: append one notification per permission row of `e`. */
    method NotifyParticipants(e: EventId, message: string)
      requires Valid()
      modifies this`notifications, this`clock
      ensures Valid()
      ensures notifications == old(notifications) + FanOut(permissions, e, message, old(clock))
      ensures clock == old(clock) + |FanOut(permissions, e, message, old(clock))|
    {
      var i := 0;
      while i < |permissions|
        invariant 0 <= i <= |permissions|
        invariant notifications == old(notifications) + FanOut(permissions[..i], e, message, old(clock))
        invariant clock == old(clock) + |FanOut(permissions[..i], e, message, old(clock))|
      {
        var p := permissions[i];
        assert permissions[..i + 1][..i] == permissions[..i];
        if p.eventId == e {
          notifications := notifications + [Notification(p.userId, e, message, false, clock)];
          clock := clock + 1;
        }
        i := i + 1;
      }
      assert permissions[..i] == permissions;
    }

    /** `Event(**request, owner_id=actor)` added to the session: a new event under the next id. */
    method Insert(actor: UserId, spec: NewEvent) returns (ev: Event)
      requires Valid()
      modifies this
      ensures Valid()
      ensures ev == Event(old(nextEventId), ToFields(spec), actor, old(clock)) && ev.id !in old(events)
      ensures events == old(events)[ev.id := ev]
      ensures nextEventId == old(nextEventId) + 1 && clock == old(clock) + 1 && nextVersionId == old(nextVersionId)
      ensures permissions == old(permissions) && versions == old(versions) && notifications == old(notifications)
    {
      ev := Event(nextEventId, ToFields(spec), actor, clock);
      events := events[ev.id := ev];
      nextEventId := nextEventId + 1;
      clock := clock + 1;
    }

    /** `create_event`: refused with Conflict when an event the actor can see overlaps the new
        range; otherwise one new event owned by the actor is added. The range is not checked. */
    method CreateEvent(actor: UserId, spec: NewEvent) returns (r: Result<Event>)
      requires Valid()
      modifies this
      ensures Valid()
      ensures r.Err? <==> HasConflict(old(events), old(permissions), actor, spec.startTime, spec.endTime, None)
      ensures r.Err? ==> r.error == Conflict && unchanged(this)
      ensures r.Ok? ==>
                && r.value.id !in old(events) && r.value.ownerId == actor && r.value.fields == ToFields(spec)
                && events == old(events)[r.value.id := r.value]
                && permissions == old(permissions) && versions == old(versions)
                && notifications == old(notifications)
    {
      if HasConflict(events, permissions, actor, spec.startTime, spec.endTime, None) {
        return Err(Conflict);
      }
      var ev := Insert(actor, spec);
      r := Ok(ev);
    }

    /** `batch_create_events`: every request becomes a new event owned by the actor, in order,
        with no conflict check at all. */
    method BatchCreateEvents(actor: UserId, specs: seq<NewEvent>) returns (created: seq<Event>)
      requires Valid()
      modifies this
      ensures Valid()
      ensures |created| == |specs|
      ensures forall i | 0 <= i < |specs| ::
                && created[i].fields == ToFields(specs[i]) && created[i].ownerId == actor
                && created[i].id !in old(events) && created[i].id in events && events[created[i].id] == created[i]
      ensures forall i, j | 0 <= i < j < |created| :: created[i].id < created[j].id
      ensures forall id :: id in events <==> id in old(events) || exists ev | ev in created :: ev.id == id
      ensures forall id | id in old(events) :: events[id] == old(events)[id]
      ensures permissions == old(permissions) && versions == old(versions) && notifications == old(notifications)
    {
      created := [];
      var i := 0;
      while i < |specs|
        invariant 0 <= i <= |specs| && |created| == i
        invariant Valid()
        invariant nextEventId == old(nextEventId) + i
        invariant forall k | 0 <= k < i ::
                    && created[k].id == old(nextEventId) + k
                    && created[k].fields == ToFields(specs[k]) && created[k].ownerId == actor
                    && created[k].id in events && events[created[k].id] == created[k]
        invariant forall id :: id in events <==> id in old(events) || exists ev | ev in created :: ev.id == id
        invariant forall id | id in old(events) :: events[id] == old(events)[id]
        invariant permissions == old(permissions) && versions == old(versions) && notifications == old(notifications)
      {
        var ev := Insert(actor, specs[i]);
        created := created + [ev];
        i := i + 1;
      }
    }

    /** `get_event_by_id`. */
    function GetEvent(actor: UserId, eventId: EventId): (r: Result<Event>)
      reads this
      ensures r.Ok? <==> ReadGate(actor, eventId) == Pass
      ensures r.Ok? ==> r.value == events[eventId]
      ensures r.Err? ==> ReadGate(actor, eventId) == Fail(r.error)
    {
      match ReadGate(actor, eventId)
      case Fail(err) => Err(err)
      case Pass => Ok(events[eventId])
    }

    /** The step update and rollback share: append a snapshot of the event's current fields,
        stamped with the actor, then overwrite all seven fields from `src`. */
    method SnapshotThenOverwrite(eventId: EventId, actor: UserId, src: Fields)
      requires Valid() && eventId in events && Complete(src)
      modifies this`versions, this`events, this`nextVersionId, this`clock
      ensures Valid()
      ensures versions == old(versions) + [Snapshot(old(events)[eventId], old(nextVersionId), actor, old(clock))]
      ensures events == old(events)[eventId := old(events)[eventId].(fields := src)]
      ensures clock == old(clock) + 1
    {
      var ev := events[eventId];
      versions := versions + [Snapshot(ev, nextVersionId, actor, clock)];
      nextVersionId := nextVersionId + 1;
      clock := clock + 1;
      var updated := Overwrite(ev, src);
      events := events[eventId := updated];
    }

    /** `update_event`: NotFound, then Forbidden unless owner or editor. A request without a
        start or an end is refused while the conflict query is built (an ordering comparison
        with an absent value), before any conflict check. Then Conflict if an event the actor
        can see (other than this one) overlaps the requested range. A request without a title
        is refused at commit (NOT NULL column). Otherwise a snapshot of the current fields is
        appended, all seven fields take the request's values, and the holders are notified.
        Every refusal leaves the store as it was. */
    method UpdateEvent(actor: UserId, eventId: EventId, request: Fields) returns (r: Outcome)
      requires Valid()
      modifies this
      ensures Valid()
      ensures eventId !in old(events) ==> r == Fail(NotFound)
      ensures eventId in old(events) && !CanUpdate(old(events)[eventId], old(permissions), actor) ==>
                r == Fail(Forbidden)
      ensures eventId in old(events) && CanUpdate(old(events)[eventId], old(permissions), actor) ==>
                if request.startTime.None? || request.endTime.None? then r == Fail(Rejected)
                else if HasConflict(old(events), old(permissions), actor, request.startTime.value,
                                    request.endTime.value, Some(eventId))
                then r == Fail(Conflict)
                else if request.title.None? then r == Fail(Rejected)
                else r == Pass
      ensures r.Fail? ==> unchanged(this)
      ensures r.Pass? ==>
                && versions == old(versions) + [Snapshot(old(events)[eventId], old(nextVersionId), actor, old(clock))]
                && events == old(events)[eventId := old(events)[eventId].(fields := request)]
                && permissions == old(permissions)
                && notifications == old(notifications) + FanOut(permissions, eventId, UpdatedMessage, old(clock) + 1)
    {
      if eventId !in events {
        return Fail(NotFound);
      }
      var ev := events[eventId];
      if !CanUpdate(ev, permissions, actor) {
        return Fail(Forbidden);
      }
      if request.startTime.None? || request.endTime.None? {
        // `start_time < None` cannot be built into a query.
        return Fail(Rejected);
      }
      if HasConflict(events, permissions, actor, request.startTime.value, request.endTime.value, Some(eventId)) {
        return Fail(Conflict);
      }
      if request.title.None? {
        // The commit fails on the NOT NULL title column and rolls back.
        return Fail(Rejected);
      }
      SnapshotThenOverwrite(eventId, actor, request);
      NotifyParticipants(eventId, UpdatedMessage);
      r := Pass;
    }

    /** The three deletes of `delete_event`: the event's permission rows, its version rows,
        then the event itself. */
    method Purge(eventId: EventId)
      requires Valid()
      modifies this`permissions, this`versions, this`events
      ensures Valid()
      ensures events == old(events) - {eventId}
      ensures permissions == DropPermissions(old(permissions), eventId)
      ensures versions == DropVersions(old(versions), eventId)
      ensures forall p :: p in permissions <==> p in old(permissions) && p.eventId != eventId
      ensures forall v :: v in versions <==> v in old(versions) && v.eventId != eventId
    {
      DropPermissionsExact(permissions, eventId);
      DropVersionsExact(versions, eventId);
      permissions := DropPermissions(permissions, eventId);
      versions := DropVersions(versions, eventId);
      events := events - {eventId};
    }

    /** `delete_event`: owner only. The holders are notified first; then the event goes, with
        all its permission and version rows; other events' rows stay. */
    method DeleteEvent(actor: UserId, eventId: EventId) returns (r: Outcome)
      requires Valid()
      modifies this
      ensures Valid()
      ensures r == old(OwnerGate(actor, eventId, NotFound))
      ensures r.Fail? ==> unchanged(this)
      ensures r.Pass? ==>
                && notifications == old(notifications) + FanOut(old(permissions), eventId, DeletedMessage, old(clock))
                && events == old(events) - {eventId}
                && permissions == DropPermissions(old(permissions), eventId)
                && versions == DropVersions(old(versions), eventId)
                && (forall p :: p in permissions <==> p in old(permissions) && p.eventId != eventId)
                && (forall v :: v in versions <==> v in old(versions) && v.eventId != eventId)
    {
      r := OwnerGate(actor, eventId, NotFound);
      if r.Fail? {
        return;
      }
      NotifyParticipants(eventId, DeletedMessage);
      Purge(eventId);
    }

    /** `share_event`: owner only, a missing event being Forbidden too. Each named user other
        than the sharer gets the role of their stored row overwritten, or a new row; the lookups
        see only the rows stored before the request. A table that then names a pair twice is
        refused at commit. Otherwise it is the upsert of every named user, and the holders are
        notified. */
    method ShareEvent(actor: UserId, eventId: EventId, users: seq<ShareUser>) returns (r: Outcome)
      requires Valid()
      modifies this
      ensures Valid()
      ensures old(OwnerGate(actor, eventId, Forbidden)).Fail? ==> r == old(OwnerGate(actor, eventId, Forbidden))
      ensures old(OwnerGate(actor, eventId, Forbidden)).Pass? ==>
                (r.Pass? <==> Unique(ShareAsWritten(old(permissions), |old(permissions)|, eventId, actor, users)))
                && (r.Fail? ==> r.error == Rejected)
      ensures r.Fail? ==> unchanged(this)
      ensures r.Pass? ==>
                && permissions == ShareAll(old(permissions), eventId, actor, users)
                && events == old(events) && versions == old(versions)
                && notifications == old(notifications) + FanOut(permissions, eventId, SharedMessage, old(clock))
    {
      r := OwnerGate(actor, eventId, Forbidden);
      if r.Fail? {
        return;
      }
      var stored := |permissions|;
      var table := permissions;
      var i := 0;
      while i < |users|
        invariant 0 <= i <= |users|
        invariant table == ShareAsWritten(permissions, stored, eventId, actor, users[..i])
      {
        var u := users[i];
        assert users[..i + 1][..i] == users[..i];
        if u.userId != actor {
          match FirstRow(table[..stored], eventId, u.userId)
          case Some(k) =>
            table := table[k := table[k].(role := u.role)];
          case None =>
            table := table + [Permission(eventId, u.userId, u.role)];
        }
        i := i + 1;
      }
      assert users[..i] == users;
      if !Unique(table) {
        r := Fail(Rejected);
        return;
      }
      ShareAsWrittenAgrees(permissions, eventId, actor, users);
      ShareAllEffect(permissions, eventId, actor, users);
      ShareAllRows(permissions, eventId, actor, users);
      permissions := table;
      NotifyParticipants(eventId, SharedMessage);
    }

    /** `list_permissions`: owner only (a missing event is Forbidden); the event's rows. */
    function ListPermissions(actor: UserId, eventId: EventId): (r: Result<seq<Permission>>)
      reads this
      ensures r.Ok? <==> OwnerGate(actor, eventId, Forbidden) == Pass
      ensures r.Err? ==> r.error == Forbidden
      ensures r.Ok? ==> forall p :: p in r.value <==> p in permissions && p.eventId == eventId
    {
      if OwnerGate(actor, eventId, Forbidden).Fail? then Err(Forbidden)
      else
        RowsOfExact(permissions, eventId);
        Ok(RowsOf(permissions, eventId))
    }

    /** `update_permission`: owner only (a missing event is Forbidden), NotFound without a row
        for the user; otherwise that row takes the new role. */
    method UpdatePermission(actor: UserId, eventId: EventId, userId: UserId, role: string) returns (r: Outcome)
      requires Valid()
      modifies this
      ensures Valid()
      ensures old(OwnerGate(actor, eventId, Forbidden)).Fail? ==> r == old(OwnerGate(actor, eventId, Forbidden))
      ensures old(OwnerGate(actor, eventId, Forbidden)) == Pass ==>
                r == if HasPermission(old(permissions), eventId, userId) then Pass else Fail(NotFound)
      ensures r.Fail? ==> unchanged(this)
      ensures r.Pass? ==>
                && permissions == Upsert(old(permissions), eventId, userId, role)
                && RoleOf(permissions, eventId, userId) == Some(role)
                && (forall e, u | e != eventId || u != userId :: RoleOf(permissions, e, u) == RoleOf(old(permissions), e, u))
                && events == old(events) && versions == old(versions) && notifications == old(notifications)
    {
      r := OwnerGate(actor, eventId, Forbidden);
      if r.Fail? {
        return;
      }
      match FirstRow(permissions, eventId, userId)
      case None =>
        r := Fail(NotFound);
      case Some(k) =>
        UpsertEffect(permissions, eventId, userId, role);
        permissions := permissions[k := permissions[k].(role := role)];
    }

    /** `delete_permission`: owner only (a missing event is Forbidden), NotFound without a row
        for the user; otherwise that row is removed and nothing else changes. */
    method DeletePermission(actor: UserId, eventId: EventId, userId: UserId) returns (r: Outcome)
      requires Valid()
      modifies this
      ensures Valid()
      ensures old(OwnerGate(actor, eventId, Forbidden)).Fail? ==> r == old(OwnerGate(actor, eventId, Forbidden))
      ensures old(OwnerGate(actor, eventId, Forbidden)) == Pass ==>
                r == if HasPermission(old(permissions), eventId, userId) then Pass else Fail(NotFound)
      ensures r.Fail? ==> unchanged(this)
      ensures r.Pass? ==>
                && permissions == RemoveRow(old(permissions), FirstRow(old(permissions), eventId, userId).value)
                && !HasPermission(permissions, eventId, userId)
                && |permissions| == |old(permissions)| - 1
                && (forall e, u | e != eventId || u != userId :: RoleOf(permissions, e, u) == RoleOf(old(permissions), e, u))
                && events == old(events) && versions == old(versions) && notifications == old(notifications)
    {
      r := OwnerGate(actor, eventId, Forbidden);
      if r.Fail? {
        return;
      }
      match FirstRow(permissions, eventId, userId)
      case None =>
        r := Fail(NotFound);
      case Some(k) =>
        RevokeEffect(permissions, eventId, userId);
        var kept := RemoveRow(permissions, k);
        forall p | p in kept ensures p in permissions {
          var i :| 0 <= i < |kept| && kept[i] == p;
          assert i < k ==> permissions[i] == p;
          assert i >= k ==> permissions[i + 1] == p;
        }
        permissions := kept;
    }

    /** `get_changelog`: after the read check, the event's versions, newest first. */
    function GetChangelog(actor: UserId, eventId: EventId): (r: Result<seq<Version>>)
      requires Valid()
      reads this
      ensures r.Ok? <==> ReadGate(actor, eventId) == Pass
      ensures r.Err? ==> ReadGate(actor, eventId) == Fail(r.error)
      ensures r.Ok? ==> forall v :: v in r.value <==> v in versions && v.eventId == eventId
      ensures r.Ok? ==> forall i, j | 0 <= i < j < |r.value| :: r.value[i].updatedAt > r.value[j].updatedAt
    {
      match ReadGate(actor, eventId)
      case Fail(err) => Err(err)
      case Pass =>
        ChangelogContents(versions, eventId);
        ChangelogNewestFirst(versions, eventId);
        Ok(Changelog(versions, eventId))
    }

    /** `get_diff`: after the read check, NotFound unless both versions belong to the event;
        otherwise the fields whose values differ, with both values, in declaration order. */
    function GetDiff(actor: UserId, eventId: EventId, v1: VersionId, v2: VersionId): (r: Result<seq<Change>>)
      reads this
      ensures ReadGate(actor, eventId).Fail? ==> r == Err(ReadGate(actor, eventId).error)
      ensures ReadGate(actor, eventId) == Pass ==>
                (r.Ok? <==> FindVersion(versions, eventId, v1).Some? && FindVersion(versions, eventId, v2).Some?)
      ensures ReadGate(actor, eventId) == Pass && r.Err? ==> r.error == NotFound
      ensures r.Ok? ==>
                var a := FindVersion(versions, eventId, v1).value.fields;
                var b := FindVersion(versions, eventId, v2).value.fields;
                && (forall c | c in r.value :: c.before == Get(a, c.field) && c.after == Get(b, c.field))
                && (forall n: FieldName :: (exists c :: c in r.value && c.field == n) <==> Get(a, n) != Get(b, n))
                && (r.value == [] <==> a == b)
      ensures r.Ok? && v1 == v2 ==> r.value == []
    {
      match ReadGate(actor, eventId)
      case Fail(err) => Err(err)
      case Pass =>
        match (FindVersion(versions, eventId, v1), FindVersion(versions, eventId, v2))
        case (Some(ver1), Some(ver2)) =>
          DiffExact(ver1.fields, ver2.fields);
          DiffEmptyIffEqual(ver1.fields, ver2.fields);
          Ok(Diff(ver1.fields, ver2.fields))
        case _ => Err(NotFound)
    }

    /** `rollback_event`: NotFound, then owner only, then NotFound unless the version belongs to
        the event. A snapshot of the current fields is appended, then all seven fields take the
        target version's values (no conflict check), and the holders are notified. */
    method RollbackEvent(actor: UserId, eventId: EventId, versionId: VersionId) returns (r: Outcome)
      requires Valid()
      modifies this
      ensures Valid()
      ensures old(OwnerGate(actor, eventId, NotFound)).Fail? ==> r == old(OwnerGate(actor, eventId, NotFound))
      ensures old(OwnerGate(actor, eventId, NotFound)) == Pass ==>
                r == if FindVersion(old(versions), eventId, versionId).Some? then Pass else Fail(NotFound)
      ensures r.Fail? ==> unchanged(this)
      ensures r.Pass? ==>
                var target := FindVersion(old(versions), eventId, versionId).value;
                && versions == old(versions) + [Snapshot(old(events)[eventId], old(nextVersionId), actor, old(clock))]
                && events == old(events)[eventId := old(events)[eventId].(fields := target.fields)]
                && Diff(events[eventId].fields, target.fields) == []
                && permissions == old(permissions)
                && notifications == old(notifications) +
                     FanOut(permissions, eventId, RolledBackMessage(versionId), old(clock) + 1)
    {
      r := OwnerGate(actor, eventId, NotFound);
      if r.Fail? {
        return;
      }
      var found := FindVersion(versions, eventId, versionId);
      if found.None? {
        return Fail(NotFound);
      }
      var target := found.value;
      SnapshotThenOverwrite(eventId, actor, target.fields);
      DiffEmptyIffEqual(target.fields, target.fields);
      NotifyParticipants(eventId, RolledBackMessage(versionId));
    }

    /** `get_event_version_by_id`: after the read check, the version if it belongs to the event. */
    function GetEventVersion(actor: UserId, eventId: EventId, versionId: VersionId): (r: Result<Version>)
      reads this
      ensures ReadGate(actor, eventId).Fail? ==> r == Err(ReadGate(actor, eventId).error)
      ensures ReadGate(actor, eventId) == Pass ==>
                if exists v :: v in versions && v.id == versionId && v.eventId == eventId
                then r.Ok? && r.value in versions && r.value.id == versionId && r.value.eventId == eventId
                else r == Err(NotFound)
    {
      match ReadGate(actor, eventId)
      case Fail(err) => Err(err)
      case Pass =>
        match FindVersion(versions, eventId, versionId)
        case None => Err(NotFound)
        case Some(v) => Ok(v)
    }
  }
}
