/** The scheduling-conflict check run by create and update. */
module Conflicts {
  import opened Domain
  import opened Access

  /** The filter `start_time < new.end AND end_time > new.start` on one row. A stored event
      always has both times (NOT NULL columns); a record without them never matches. */
  predicate Overlaps(f: Fields, start: Time, end: Time)
  {
    match (f.startTime, f.endTime)
    case (Some(s1), Some(e1)) => s1 < end && e1 > start
    case _ => false
  }

  /** Some event the actor owns or holds any permission on, other than `exclude`,
      overlaps the half-open range [start, end). */
  predicate HasConflict(events: map<EventId, Event>, perms: seq<Permission>, actor: UserId,
                        start: Time, end: Time, exclude: Option<EventId>)
  {
    exists id | id in events ::
      exclude != Some(id) && CanRead(events[id], perms, actor) && Overlaps(events[id].fields, start, end)
  }

  /** Overlap of two complete ranges is the half-open rule, and it is symmetric. */
  lemma OverlapIsHalfOpen(a: Fields, b: Fields)
    requires Complete(a) && Complete(b)
    ensures Overlaps(a, b.startTime.value, b.endTime.value) <==>
              a.startTime.value < b.endTime.value && b.startTime.value < a.endTime.value
    ensures Overlaps(a, b.startTime.value, b.endTime.value) <==> Overlaps(b, a.startTime.value, a.endTime.value)
  {
  }

  /** Ranges that only touch at an endpoint never conflict. */
  lemma TouchingRangesDoNotOverlap(f: Fields, start: Time, end: Time)
    requires f.endTime == Some(start) || f.startTime == Some(end)
    ensures !Overlaps(f, start, end)
  {
  }

  /** An overlapping event the actor can see is a conflict; one they cannot see never is. */
  lemma ConflictWitness(events: map<EventId, Event>, perms: seq<Permission>, actor: UserId,
                        start: Time, end: Time, exclude: Option<EventId>, id: EventId)
    requires id in events && exclude != Some(id)
    requires Overlaps(events[id].fields, start, end)
    ensures HasConflict(events, perms, actor, start, end, exclude) <==>
              CanRead(events[id], perms, actor) ||
              HasConflict(events - {id}, perms, actor, start, end, exclude)
  {
    if HasConflict(events, perms, actor, start, end, exclude) && !CanRead(events[id], perms, actor) {
      var w :| w in events && exclude != Some(w) && CanRead(events[w], perms, actor)
               && Overlaps(events[w].fields, start, end);
      assert w in events - {id};
    }
    if HasConflict(events - {id}, perms, actor, start, end, exclude) {
      var w :| w in events - {id} && exclude != Some(w) && CanRead((events - {id})[w], perms, actor)
               && Overlaps((events - {id})[w].fields, start, end);
      assert w in events;
    }
  }

  /** The event being updated never counts against itself: whatever it holds, the answer
      is the same as without it. */
  lemma ExcludedEventIgnored(events: map<EventId, Event>, perms: seq<Permission>, actor: UserId,
                             start: Time, end: Time, id: EventId)
    ensures HasConflict(events, perms, actor, start, end, Some(id)) <==>
              HasConflict(events - {id}, perms, actor, start, end, None)
  {
    if HasConflict(events, perms, actor, start, end, Some(id)) {
      var w :| w in events && Some(id) != Some(w) && CanRead(events[w], perms, actor)
               && Overlaps(events[w].fields, start, end);
      assert w in events - {id};
    }
    if HasConflict(events - {id}, perms, actor, start, end, None) {
      var w :| w in events - {id} && CanRead((events - {id})[w], perms, actor)
               && Overlaps((events - {id})[w].fields, start, end);
      assert w in events && Some(id) != Some(w);
    }
  }
}
