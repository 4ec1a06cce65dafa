/** Notification fan-out: one unseen notification for every permission row of an event. */
module Notifications {
  import opened Domain
  import opened Access

  /** The permission rows of event `e`, in table order. */
  function RowsOf(perms: seq<Permission>, e: EventId): seq<Permission>
    decreases |perms|
  {
    if perms == [] then []
    else
      var init := perms[..|perms| - 1];
      var p := perms[|perms| - 1];
      RowsOf(init, e) + (if p.eventId == e then [p] else [])
  }

  /** The notifications the fan-out appends, the first stamped `t0`, the next `t0 + 1`, and so on. */
  function FanOut(perms: seq<Permission>, e: EventId, message: string, t0: Time): seq<Notification>
    decreases |perms|
  {
    if perms == [] then []
    else
      var prev := FanOut(perms[..|perms| - 1], e, message, t0);
      var p := perms[|perms| - 1];
      if p.eventId == e then prev + [Notification(p.userId, e, message, false, t0 + |prev|)]
      else prev
  }

  /** The rows of `e` are exactly the table's rows naming `e`; there is one per pair. */
  lemma {:induction false} RowsOfExact(perms: seq<Permission>, e: EventId)
    ensures forall p :: p in RowsOf(perms, e) <==> p in perms && p.eventId == e
    ensures Unique(perms) ==> Unique(RowsOf(perms, e))
    decreases |perms|
  {
    if perms != [] {
      var init := perms[..|perms| - 1];
      var p := perms[|perms| - 1];
      RowsOfExact(init, e);
      assert perms == init + [p];
      if Unique(perms) {
        assert Unique(init);
        var rows := RowsOf(init, e);
        forall q | q in rows ensures !Matches(p, q.eventId, q.userId) {
          var k :| 0 <= k < |init| && init[k] == q;
          assert perms[k] == q;
        }
      }
    }
  }

  /** One notification per row of `e`, in table order: it goes to that row's user, carries `e`
      and the message, starts unseen, and the timestamps count up from `t0`. */
  lemma {:induction false} FanOutExact(perms: seq<Permission>, e: EventId, message: string, t0: Time)
    ensures |FanOut(perms, e, message, t0)| == |RowsOf(perms, e)|
    ensures forall i | 0 <= i < |FanOut(perms, e, message, t0)| ::
              FanOut(perms, e, message, t0)[i] ==
                Notification(RowsOf(perms, e)[i].userId, e, message, false, t0 + i)
    decreases |perms|
  {
    if perms != [] {
      FanOutExact(perms[..|perms| - 1], e, message, t0);
    }
  }

  /** A user receives a notification exactly when they hold a permission row on `e`; the owner
      without a row, and the holders of other events' rows only, receive nothing. */
  lemma FanOutRecipients(perms: seq<Permission>, e: EventId, message: string, t0: Time, u: UserId)
    ensures (exists n :: n in FanOut(perms, e, message, t0) && n.userId == u) <==> HasPermission(perms, e, u)
  {
    var out := FanOut(perms, e, message, t0);
    var rows := RowsOf(perms, e);
    FanOutExact(perms, e, message, t0);
    RowsOfExact(perms, e);
    if exists n :: n in out && n.userId == u {
      var n :| n in out && n.userId == u;
      var i :| 0 <= i < |out| && out[i] == n;
      assert rows[i] in rows;
      var k :| 0 <= k < |perms| && perms[k] == rows[i];
      assert Matches(perms[k], e, u);
    }
    if HasPermission(perms, e, u) {
      var k :| 0 <= k < |perms| && Matches(perms[k], e, u);
      assert perms[k] in rows;
      var i :| 0 <= i < |rows| && rows[i] == perms[k];
      assert out[i] in out;
    }
  }

  /** With one row per pair, nobody receives the same fan-out twice. */
  lemma FanOutOncePerUser(perms: seq<Permission>, e: EventId, message: string, t0: Time)
    requires Unique(perms)
    ensures forall i, j | 0 <= i < j < |FanOut(perms, e, message, t0)| ::
              FanOut(perms, e, message, t0)[i].userId != FanOut(perms, e, message, t0)[j].userId
  {
    var out := FanOut(perms, e, message, t0);
    var rows := RowsOf(perms, e);
    FanOutExact(perms, e, message, t0);
    RowsOfExact(perms, e);
    forall i, j | 0 <= i < j < |out| ensures out[i].userId != out[j].userId {
      assert !Matches(rows[j], rows[i].eventId, rows[i].userId);
    }
  }
}
