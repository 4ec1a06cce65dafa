/** Snapshots, field-level diff, the setattr loop shared by update and rollback, and the changelog. */
module Versioning {
  import opened Domain

  /** Names of the seven mutable fields. */
  datatype FieldName = Title | Description | StartTime | EndTime | Location | IsRecurring | RecurrencePattern

  /** The order the update request declares the fields in; every field-by-field walk follows it. */
  const FieldOrder: seq<FieldName> :=
    [Title, Description, StartTime, EndTime, Location, IsRecurring, RecurrencePattern]

  /** Position of a field in FieldOrder. */
  function Rank(n: FieldName): (r: nat)
    ensures r < |FieldOrder| && FieldOrder[r] == n
  {
    match n
    case Title => 0
    case Description => 1
    case StartTime => 2
    case EndTime => 3
    case Location => 4
    case IsRecurring => 5
    case RecurrencePattern => 6
  }

  /** The value of one field, whatever its column type. */
  datatype FieldValue = Text(text: Option<string>) | Instant(time: Option<Time>) | Flag(flag: Option<bool>)

  /** `getattr(f, n)`. */
  function Get(f: Fields, n: FieldName): FieldValue
  {
    match n
    case Title => Text(f.title)
    case Description => Text(f.description)
    case StartTime => Instant(f.startTime)
    case EndTime => Instant(f.endTime)
    case Location => Text(f.location)
    case IsRecurring => Flag(f.isRecurring)
    case RecurrencePattern => Text(f.recurrencePattern)
  }

  /** Two field records agreeing on every field are equal. */
  lemma FieldsEqual(a: Fields, b: Fields)
    requires forall n: FieldName :: Get(a, n) == Get(b, n)
    ensures a == b
  {
    assert Get(a, Title) == Get(b, Title) && Get(a, Description) == Get(b, Description);
    assert Get(a, StartTime) == Get(b, StartTime) && Get(a, EndTime) == Get(b, EndTime);
    assert Get(a, Location) == Get(b, Location) && Get(a, IsRecurring) == Get(b, IsRecurring);
    assert Get(a, RecurrencePattern) == Get(b, RecurrencePattern);
  }

  /** `setattr(dst, n, getattr(src, n))`: field `n` is taken from `src`, the rest stay. */
  function CopyField(dst: Fields, src: Fields, n: FieldName): (r: Fields)
    ensures Get(r, n) == Get(src, n)
    ensures forall m: FieldName | m != n :: Get(r, m) == Get(dst, m)
  {
    match n
    case Title => dst.(title := src.title)
    case Description => dst.(description := src.description)
    case StartTime => dst.(startTime := src.startTime)
    case EndTime => dst.(endTime := src.endTime)
    case Location => dst.(location := src.location)
    case IsRecurring => dst.(isRecurring := src.isRecurring)
    case RecurrencePattern => dst.(recurrencePattern := src.recurrencePattern)
  }

  /** The loop `for field in fields: setattr(event, field, source[field])` of update and rollback.
      Every mutable field ends up equal to the source's; id, owner and creation time stay. */
  method Overwrite(ev: Event, src: Fields) returns (r: Event)
    ensures r.fields == src
    ensures r.id == ev.id && r.ownerId == ev.ownerId && r.createdAt == ev.createdAt
  {
    r := ev;
    var i := 0;
    while i < |FieldOrder|
      invariant 0 <= i <= |FieldOrder|
      invariant r.id == ev.id && r.ownerId == ev.ownerId && r.createdAt == ev.createdAt
      invariant forall n: FieldName :: Get(r.fields, n) == if Rank(n) < i then Get(src, n) else Get(ev.fields, n)
    {
      r := r.(fields := CopyField(r.fields, src, FieldOrder[i]));
      i := i + 1;
    }
    FieldsEqual(r.fields, src);
  }

  /** The version row taken before a change: the event's current fields, stamped with the actor. */
  function Snapshot(ev: Event, id: VersionId, actor: UserId, at: Time): (v: Version)
    ensures v.eventId == ev.id && v.updatedBy == actor && v.updatedAt == at
    ensures forall n: FieldName :: Get(v.fields, n) == Get(ev.fields, n)
  {
    Version(id, ev.id, ev.fields, at, actor)
  }

  /** One entry of a diff: the field and its value in the first and in the second version. */
  datatype Change = Change(field: FieldName, before: FieldValue, after: FieldValue)

  /** The dict comprehension of the diff over a list of field names. */
  function DiffOver(a: Fields, b: Fields, names: seq<FieldName>): seq<Change>
  {
    if names == [] then []
    else
      var n := names[0];
      (if Get(a, n) != Get(b, n) then [Change(n, Get(a, n), Get(b, n))] else [])
      + DiffOver(a, b, names[1..])
  }

  /** Diff of two versions: the fields whose values differ, in canonical order. */
  function Diff(a: Fields, b: Fields): seq<Change>
  {
    DiffOver(a, b, FieldOrder)
  }

  lemma {:induction false} DiffOverExact(a: Fields, b: Fields, names: seq<FieldName>)
    ensures forall c | c in DiffOver(a, b, names) ::
              c.field in names && c.before == Get(a, c.field) && c.after == Get(b, c.field)
    ensures forall n | n in names ::
              (exists c :: c in DiffOver(a, b, names) && c.field == n) <==> Get(a, n) != Get(b, n)
  {
    if names != [] {
      DiffOverExact(a, b, names[1..]);
      var n := names[0];
      if Get(a, n) != Get(b, n) {
        assert Change(n, Get(a, n), Get(b, n)) in DiffOver(a, b, names);
      }
      forall m | m in names[1..] && Get(a, m) != Get(b, m)
        ensures exists c :: c in DiffOver(a, b, names) && c.field == m
      {
        var c :| c in DiffOver(a, b, names[1..]) && c.field == m;
        assert c in DiffOver(a, b, names);
      }
    }
  }

  lemma {:induction false} DiffOverOrdered(a: Fields, b: Fields, names: seq<FieldName>)
    requires forall i, j | 0 <= i < j < |names| :: Rank(names[i]) < Rank(names[j])
    ensures forall i, j | 0 <= i < j < |DiffOver(a, b, names)| ::
              Rank(DiffOver(a, b, names)[i].field) < Rank(DiffOver(a, b, names)[j].field)
  {
    if names != [] {
      DiffOverOrdered(a, b, names[1..]);
      DiffOverExact(a, b, names[1..]);
      var rest := DiffOver(a, b, names[1..]);
      forall c | c in rest ensures Rank(names[0]) < Rank(c.field) {
        var k :| 0 <= k < |names[1..]| && names[1..][k] == c.field;
        assert names[k + 1] == c.field;
      }
    }
  }

  /** The diff holds exactly the fields whose values differ, each with both values, in the
      order the fields are declared. */
  lemma DiffExact(a: Fields, b: Fields)
    ensures forall c | c in Diff(a, b) :: c.before == Get(a, c.field) && c.after == Get(b, c.field)
    ensures forall n: FieldName :: (exists c :: c in Diff(a, b) && c.field == n) <==> Get(a, n) != Get(b, n)
    ensures forall i, j | 0 <= i < j < |Diff(a, b)| :: Rank(Diff(a, b)[i].field) < Rank(Diff(a, b)[j].field)
  {
    DiffOverExact(a, b, FieldOrder);
    DiffOverOrdered(a, b, FieldOrder);
    forall n: FieldName ensures n in FieldOrder {
      assert FieldOrder[Rank(n)] == n;
    }
  }

  /** The diff is empty exactly when the two versions agree on all seven fields;
      in particular diffing a version with itself is empty. */
  lemma DiffEmptyIffEqual(a: Fields, b: Fields)
    ensures Diff(a, b) == [] <==> a == b
  {
    DiffExact(a, b);
    if Diff(a, b) == [] {
      FieldsEqual(a, b);
    } else {
      var c := Diff(a, b)[0];
      assert c in Diff(a, b);
      assert Get(a, c.field) != Get(b, c.field);
    }
  }

  /** Versions appear in the log in the order they were written: later rows have later
      timestamps and larger ids. */
  predicate Chronological(vs: seq<Version>)
  {
    forall i, j | 0 <= i < j < |vs| :: vs[i].updatedAt < vs[j].updatedAt && vs[i].id < vs[j].id
  }

  /** The versions of event `e`, newest first (the log read backwards). */
  function Changelog(vs: seq<Version>, e: EventId): seq<Version>
  {
    if vs == [] then []
    else Changelog(vs[1..], e) + (if vs[0].eventId == e then [vs[0]] else [])
  }

  /** The changelog holds exactly the event's versions. */
  lemma {:induction false} ChangelogContents(vs: seq<Version>, e: EventId)
    ensures forall v :: v in Changelog(vs, e) <==> v in vs && v.eventId == e
  {
    if vs != [] {
      ChangelogContents(vs[1..], e);
      assert vs == [vs[0]] + vs[1..];
    }
  }

  /** Over a chronological log, the changelog is ordered by `updated_at`, newest first. */
  lemma {:induction false} ChangelogNewestFirst(vs: seq<Version>, e: EventId)
    requires Chronological(vs)
    ensures forall i, j | 0 <= i < j < |Changelog(vs, e)| ::
              Changelog(vs, e)[i].updatedAt > Changelog(vs, e)[j].updatedAt
  {
    if vs != [] {
      assert Chronological(vs[1..]);
      ChangelogNewestFirst(vs[1..], e);
      ChangelogContents(vs[1..], e);
      var rest := Changelog(vs[1..], e);
      forall v | v in rest ensures v.updatedAt > vs[0].updatedAt {
        var k :| 0 <= k < |vs[1..]| && vs[1..][k] == v;
        assert vs[k + 1] == v;
      }
    }
  }

  /** `filter_by(id=vid, event_id=e).first()` on the version log. */
  function FindVersion(vs: seq<Version>, e: EventId, vid: VersionId): (r: Option<Version>)
    ensures r.Some? ==> r.value in vs && r.value.id == vid && r.value.eventId == e
    ensures r.None? ==> forall v | v in vs :: !(v.id == vid && v.eventId == e)
  {
    if vs == [] then None
    else if vs[0].id == vid && vs[0].eventId == e then Some(vs[0])
    else FindVersion(vs[1..], e, vid)
  }

  /** The log with every version of event `e` removed. */
  function DropVersions(vs: seq<Version>, e: EventId): seq<Version>
  {
    if vs == [] then []
    else (if vs[0].eventId == e then [] else [vs[0]]) + DropVersions(vs[1..], e)
  }

  /** Deleting an event's versions keeps exactly the other events' versions, in order. */
  lemma {:induction false} DropVersionsExact(vs: seq<Version>, e: EventId)
    ensures forall v :: v in DropVersions(vs, e) <==> v in vs && v.eventId != e
    ensures Chronological(vs) ==> Chronological(DropVersions(vs, e))
  {
    if vs != [] {
      DropVersionsExact(vs[1..], e);
      assert vs == [vs[0]] + vs[1..];
      if Chronological(vs) {
        assert Chronological(vs[1..]);
        var rest := DropVersions(vs[1..], e);
        forall v | v in rest ensures vs[0].updatedAt < v.updatedAt && vs[0].id < v.id {
          var k :| 0 <= k < |vs[1..]| && vs[1..][k] == v;
          assert vs[k + 1] == v;
        }
      }
    }
  }
}
