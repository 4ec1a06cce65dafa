/** Rows of the event store and the results its handlers return. */
module Domain {

  datatype Option<+T> = None | Some(value: T)

  /** Error kinds a handler can report; the HTTP status each maps to is noted. */
  datatype Error =
    | NotFound   // 404
    | Forbidden  // 403
    | Conflict   // 400: an overlapping event exists
    | Rejected   // 500: the store refuses the request: a query comparing a column with an absent
               // value, or a commit breaking a NOT NULL or UNIQUE constraint

  datatype Result<+T> = Ok(value: T) | Err(error: Error)

  /** Result of a handler that only reports success or an error. */
  datatype Outcome = Pass | Fail(error: Error)

  type UserId = int
  type EventId = int
  type VersionId = int

  /** A point in time: an abstract counter standing for a timestamp. */
  type Time = int

  /** The seven mutable fields of an event, in the order the update request declares them.
      Every one of them may be absent (None) in an update request or a version row. */
  datatype Fields = Fields(
    title: Option<string>,
    description: Option<string>,
    startTime: Option<Time>,
    endTime: Option<Time>,
    location: Option<string>,
    isRecurring: Option<bool>,
    recurrencePattern: Option<string>)

  /** The columns the events table declares NOT NULL are present. */
  predicate Complete(f: Fields)
  {
    f.title.Some? && f.startTime.Some? && f.endTime.Some?
  }

  /** A create request: title and both times are required, `is_recurring` defaults to false. */
  datatype NewEvent = NewEvent(
    title: string,
    description: Option<string>,
    startTime: Time,
    endTime: Time,
    location: Option<string>,
    isRecurring: bool,
    recurrencePattern: Option<string>)

  function ToFields(n: NewEvent): (f: Fields)
    ensures Complete(f)
    ensures f.title == Some(n.title) && f.description == n.description
    ensures f.startTime == Some(n.startTime) && f.endTime == Some(n.endTime)
    ensures f.location == n.location && f.isRecurring == Some(n.isRecurring)
    ensures f.recurrencePattern == n.recurrencePattern
  {
    Fields(Some(n.title), n.description, Some(n.startTime), Some(n.endTime),
           n.location, Some(n.isRecurring), n.recurrencePattern)
  }

  /** A live event: its id, its mutable fields, its owner and its creation time. */
  datatype Event = Event(id: EventId, fields: Fields, ownerId: UserId, createdAt: Time)

  /** A snapshot of an event's mutable fields, taken before an update or a rollback. */
  datatype Version = Version(
    id: VersionId,
    eventId: EventId,
    fields: Fields,
    updatedAt: Time,
    updatedBy: UserId)

  /** A row granting `role` on an event to a user; the role is free text ("viewer", "editor"). */
  datatype Permission = Permission(eventId: EventId, userId: UserId, role: string)

  datatype Notification = Notification(
    userId: UserId,
    eventId: EventId,
    message: string,
    seen: bool,
    timestamp: Time)

  /** One entry of a share request. */
  datatype ShareUser = ShareUser(userId: UserId, role: string)
}
