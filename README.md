# Event store of a multi-user scheduling API, modelled in Dafny

This project models the event store behind the events router of a FastAPI scheduling service.
The store has three parts. Events are calendar entries with an owner and seven mutable fields.
Permission rows give another user a role (`"viewer"`, `"editor"`) on an event. Version rows are
snapshots of an event's seven fields, taken before each update or rollback. The notifications
table receives the fan-out messages. The route handlers are modelled without the HTTP layer: each
takes the acting user's id and returns a value or an error kind. The error kinds are NotFound (404),
Forbidden (403), Conflict (400), and Rejected (500). Rejected covers a query the database layer refuses
to build and a commit the database refuses.

Files and modules:

- `domain.dfy` (`Domain`): the rows, the seven-field record `Fields`, the create request, `Result` and `Outcome`.
- `access.dfy` (`Access`): the read gate (owner or any row), the update gate (owner or an `"editor"` row),
  the `.first()` row lookup, the unique-pair invariant, and the owner/editor/viewer role table.
- `conflicts.dfy` (`Conflicts`): the half-open overlap filter and the conflict check
  over the events the actor can see.
- `versioning.dfy` (`Versioning`): field names in declaration order, `getattr`/`setattr`, the setattr loop
  `Overwrite`, snapshots, the diff, the changelog and the version lookup.
- `sharing.dfy` (`Sharing`): the share upsert loop, changing and revoking one row, dropping an event's rows.
- `notifications.dfy` (`Notifications`): the fan-out as a function of the permission table.
- `store.dfy` (`EventStore`): class `Store`. It holds the tables as fields (`events` a map, the others sequences)
  and counters for the id sequences and the clock. Every handler is a method or a function of it. `Valid()`
  is the store invariant: one permission row per (event, user), no orphan permission or version rows, a
  chronological version log, and NOT NULL columns filled. Every state-changing handler preserves it.

Time values are integers. One counter, `clock`, ticks for every new row: an event's `created_at`, a
version's `updated_at`, a notification's `timestamp`. It stands for `datetime.utcnow`.

Behaviour of the code a reader might not expect, which the model follows:

- Create and update do not check `start < end`. Batch create does no conflict check at all.
- A missing event gives Forbidden, not NotFound, in share and in the three permission handlers.
- Roles are free text. Only the exact string `"editor"` passes the update gate. Any row, whatever its
  role, passes the read gate and makes its event count in the conflict check.
- Update overwrites all seven fields with the request's values, absent (None) ones included. A
  request without `start_time` or `end_time` is refused while the conflict query is built: the
  query layer accepts an absent value only in equality tests, not in `<` or `>`. That happens before any
  conflict check. A request without `title` passes the conflict check, and then the NOT NULL title column
  makes the commit fail. Either way nothing is written and the handler reports Rejected.
- Delete notifies the permission holders before it removes the rows.
- A share request that names a user twice, when that user had no row before the request, is
  refused at commit (Rejected). See "## Findings".

## Model

| member | source | states |
|---|---|---|
| `Domain.ToFields` | app/routers/events.py:46 | a created event's fields come from the request, with title, start and end present |
| `Access.FirstRow` | app/routers/events.py:135 | the lookup finds a row naming (event, user) iff one exists, and it is the first such row |
| `Access.RoleOfRow` | app/models/permission.py:12 | with one row per (event, user), the lookup returns that row's role |
| `Access.ResolveAgreesWithGates` | app/routers/events.py:75-87 | with one row per pair, the read gate is "owner or any granted role" and the update gate is "owner or the role `editor`" |
| `Access.ViewerCannotUpdate` | app/routers/events.py:85-87 | a non-owner whose row says `viewer` can read the event but not update it |
| `Conflicts.OverlapIsHalfOpen` | app/routers/events.py:37-38 | the filter is the half-open overlap `s1 < e2 && s2 < e1`, which is symmetric |
| `Conflicts.TouchingRangesDoNotOverlap` | app/routers/events.py:37-38 | ranges that only share an endpoint never overlap |
| `Conflicts.ConflictWitness` | app/routers/events.py:35-41 | an overlapping event counts iff the actor owns it or holds a row on it |
| `Conflicts.ExcludedEventIgnored` | app/routers/events.py:89-95 | the update check never counts the event being updated: it answers as if that event were absent |
| `Versioning.Rank` | app/schemas/event.py:21-28 | each of the seven fields has its position in the declared field order |
| `Versioning.CopyField` | app/routers/events.py:217-218 | one setattr changes exactly the named field to the source's value |
| `Versioning.Overwrite` | app/routers/events.py:103-104 | after the setattr loop the seven fields equal the source's; id, owner and creation time are unchanged |
| `Versioning.Snapshot` | app/routers/events.py:100 | a snapshot holds the event's current seven field values, its id and the acting user |
| `Versioning.DiffOverExact` | app/routers/events.py:199-200 | over any field list, the comprehension holds a field iff its two values differ, with both values |
| `Versioning.DiffOverOrdered` | app/routers/events.py:199-200 | the comprehension keeps the order of the field list |
| `Versioning.DiffExact` | app/routers/events.py:199-200 | the diff holds exactly the differing fields, each with both values, in declaration order |
| `Versioning.DiffEmptyIffEqual` | app/routers/events.py:199-200 | the diff is empty iff the two versions agree on all seven fields, so a version diffed with itself is empty |
| `Versioning.ChangelogContents` | app/routers/events.py:183 | the changelog holds exactly the event's versions |
| `Versioning.ChangelogNewestFirst` | app/routers/events.py:183 | over a chronological log the changelog is ordered by `updated_at`, newest first |
| `Versioning.FindVersion` | app/routers/events.py:193-194 | a version is found only if it has the given id and belongs to the event; otherwise none does |
| `Versioning.DropVersionsExact` | app/routers/events.py:121 | deleting an event's versions keeps exactly the other events' versions, and the log stays chronological |
| `Sharing.UpsertEffect` | app/routers/events.py:135-139 | one share step keeps one row per pair, gives the user the new role, and leaves every other pair's role |
| `Sharing.ShareAllEffect` | app/routers/events.py:132-139 | after sharing there is one row per pair, each named user except the sharer holds the last role given, and every other pair keeps its role |
| `Sharing.ShareAllRows` | app/routers/events.py:132-139 | sharing only changes or adds rows of the shared event |
| `Sharing.ShareAsWritten` | app/routers/events.py:132-139 | the share loop as written, whose lookups do not see rows added earlier in the same request |
| `Sharing.ShareAsWrittenAgrees` | app/routers/events.py:132-141 | whenever the loop as written leaves one row per pair, so the commit at :141 succeeds, its table equals the upsert of every named user |
| `Sharing.DuplicateShareAsWritten` | app/routers/events.py:135-141 | naming a new user twice adds two rows for one pair as written, while the upsert leaves one row with the last role |
| `Sharing.RemoveRow` | app/routers/events.py:172 | removing one row keeps all the others, in order |
| `Sharing.RevokeEffect` | app/routers/events.py:169-172 | after a revoke the user has no row on the event, one row per pair remains, and every other pair keeps its role |
| `Sharing.DropPermissionsExact` | app/routers/events.py:120 | deleting an event's rows keeps exactly the other events' rows and one row per pair |
| `Notifications.RowsOfExact` | app/services/notifications.py:9 | the rows queried are exactly the table's rows of the event, one per pair |
| `Notifications.FanOutExact` | app/services/notifications.py:9-16 | one notification per row of the event, in table order, to that row's user, carrying the event id and the message, unseen |
| `Notifications.FanOutRecipients` | app/services/notifications.py:9-14 | a user is notified iff they hold a row on the event, so the owner without a row and other events' holders get nothing |
| `Notifications.FanOutOncePerUser` | app/services/notifications.py:11-14 | with one row per pair, nobody is notified twice |
| `EventStore.Store.ReadGate` | app/routers/events.py:72-76 | a missing event is NotFound before any access check; otherwise read passes iff owner or any row |
| `EventStore.Store.OwnerGate` | app/routers/events.py:128-130 | passes iff the event exists and the actor owns it; a missing event gives the handler's own error kind |
| `EventStore.Store.NotifyParticipants` | app/services/notifications.py:4-17 | the notifications table grows by exactly the fan-out of the event; nothing existing changes |
| `EventStore.Store.Insert` | app/routers/events.py:46-49 | one new event under a fresh id, owned by the actor; nothing else changes |
| `EventStore.Store.CreateEvent` | app/routers/events.py:33-50 | Conflict iff a visible event overlaps; otherwise exactly one new event owned by the actor is added |
| `EventStore.Store.BatchCreateEvents` | app/routers/events.py:52-61 | one new event per request, in order, with fresh distinct ids, no conflict check, and other rows unchanged |
| `EventStore.Store.GetEvent` | app/routers/events.py:70-77 | the event is returned iff the read gate passes; otherwise the gate's error |
| `EventStore.Store.SnapshotThenOverwrite` | app/routers/events.py:100-104 | the log grows by one snapshot of the pre-change fields, then the event's seven fields equal the source's |
| `EventStore.Store.UpdateEvent` | app/routers/events.py:79-108 | NotFound, then Forbidden unless owner or editor, then Rejected without a start or an end, then Conflict, then Rejected without a title; on success one version of the old fields, the seven fields set to the request, and the holders notified; any failure changes nothing |
| `EventStore.Store.Purge` | app/routers/events.py:120-122 | the event and all its permission and version rows are gone, and other events' rows are kept |
| `EventStore.Store.DeleteEvent` | app/routers/events.py:110-124 | owner only; the holders are notified, then the event and its rows are removed with no orphans left |
| `EventStore.Store.ShareEvent` | app/routers/events.py:126-143 | owner only, a missing event being Forbidden; the loop runs as written, with lookups seeing only stored rows; Rejected with nothing changed iff that table names a pair twice; otherwise the table is the upsert of every named user and the holders are notified |
| `EventStore.Store.ListPermissions` | app/routers/events.py:145-150 | owner only, a missing event being Forbidden; returns exactly the event's rows |
| `EventStore.Store.UpdatePermission` | app/routers/events.py:152-162 | owner only, then NotFound without a row; the row takes the new role and every other pair keeps its role |
| `EventStore.Store.DeletePermission` | app/routers/events.py:164-174 | owner only, then NotFound without a row; the table is the old one with exactly the user's row removed, other rows in order, and every other pair keeps its role |
| `EventStore.Store.GetChangelog` | app/routers/events.py:176-183 | after the read gate, exactly the event's versions, newest first |
| `EventStore.Store.GetDiff` | app/routers/events.py:185-201 | after the read gate, NotFound unless both versions belong to the event; otherwise exactly the differing fields, empty iff equal |
| `EventStore.Store.RollbackEvent` | app/routers/events.py:203-222 | owner only, then NotFound unless the version belongs to the event; one snapshot is appended and the live fields equal the target's (the diff is empty) |
| `EventStore.Store.GetEventVersion` | app/routers/events.py:224-235 | after the read gate, the version with that id if it belongs to the event, else NotFound |

## Left out

- HTTP routing, dependency injection, response models and token authentication. The acting user is an input.
- Sessions and commit boundaries. A commit the database refuses is an error returned before any write,
  which is what the rolled-back transaction leaves behind.
- `get_events`: its filter is the read gate `Access.CanRead` applied to every event. Its offset/limit
  pagination and row order are SQL details.
- The notifications router, a single ordered read.
- The copy of `notify_event_participants` at app/routers/events.py:27-31 behaves like the service in
  app/services/notifications.py. One method, `EventStore.Store.NotifyParticipants`, models both.
- Foreign-key enforcement. Notification rows keep their event id after the event is deleted, as in a
  store that does not enforce foreign keys. A store that enforces the key on `notifications.event_id`
  would refuse to delete an event that has notifications.
- Response serialization. The version response schema declares `description`, `location` and
  `recurrence_pattern` non-optional, so returning a version with such a field absent would fail after
  the handler. The model returns the version.
- Real timestamps. In the model `updated_at` strictly increases along the log, so the changelog order has no ties.
- Concurrent requests, including the race between the conflict check and the write.
- Request validation beyond the create request's required fields. Roles are not checked against `viewer`/`editor`.

## Findings

| source | as written | input that shows it | evidently intended | confidence | as-written member | corrected member |
|---|---|---|---|---|---|---|
| app/routers/events.py:135-139 | The lookup for an existing row runs in a session without autoflush (app/db/database.py:17). So a row added earlier in the same request is invisible, and a second entry for the same new user adds a second row. The unique constraint (app/models/permission.py:12) then makes the commit fail. | A share request `[{user 2, "viewer"}, {user 2, "editor"}]` for a user with no row on the event (`Sharing.DuplicateShareAsWritten`). | One row for the user, carrying the last role given. | medium, not executed | `Sharing.ShareAsWritten` | `Sharing.ShareAllEffect` |

`EventStore.Store.ShareEvent` runs the loop as written. Such a request is Rejected, with nothing written
and nobody notified. `Sharing.ShareAsWrittenAgrees` shows that every request the commit accepts gives
the corrected table `Sharing.ShareAll`. The store's contract states that table's properties through
`Sharing.ShareAllEffect`.
