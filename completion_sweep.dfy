/** One pass of the background completion service: every appointment dated
    today or earlier that is still Awaiting is rejected, every one still
    Accepted is completed, and the user of each is notified. */
module AppointmentCompletion {
  import opened Common
  import opened Appointments
  import opened Entities
  import opened Store
  import NotificationService

  const RejectedSubject := "Randevunuz reddedildi"
  const RejectedText := "Randevunuz otomatik olarak reddedildi. Tarih: "
  const CompletedSubject := "Randevu tamamlandı — Lütfen değerlendiriniz"
  const CompletedText := "Randevunuz tamamlandı. Eğitmeni ve salonu değerlendirmek için lütfen butona tıklayın."
  const RatingActionType := "rating"
  const RatingActionLabel := "Oy Ver"

  /** Selected by the pass: dated on or before today and still Awaiting or Accepted. */
  predicate IsDue(a: Appointment, today: Date)
  {
    a.date <= today && IsPending(a.status)
  }

  /** What the pass makes of one row. */
  function Finalize(a: Appointment, today: Date, now: Ticks): (r: Appointment)
    ensures !IsDue(a, today) ==> r == a
    ensures IsDue(a, today) ==> !IsPending(r.status) && r.updatedAt == Some(now)
    ensures IsDue(a, today) && a.status == Awaiting ==> r.status == Rejected && r.completedAt == a.completedAt
    ensures IsDue(a, today) && a.status == Accepted ==> r.status == Completed && r.completedAt == Some(now)
    ensures r.(status := a.status, updatedAt := a.updatedAt, completedAt := a.completedAt) == a
  {
    if !IsDue(a, today) then a
    else if a.status == Awaiting then a.(status := Rejected, updatedAt := Some(now))
    else a.(status := Completed, updatedAt := Some(now), completedAt := Some(now))
  }

  /** The appointments table after the pass. */
  function SweptTable(s: seq<Appointment>, today: Date, now: Ticks): (r: seq<Appointment>)
    ensures |r| == |s|
    ensures forall i :: 0 <= i < |s| && !IsDue(s[i], today) ==> r[i] == s[i]
    ensures forall i :: 0 <= i < |s| && IsDue(s[i], today) ==>
      !IsPending(r[i].status) && r[i].updatedAt == Some(now)
    ensures forall i :: 0 <= i < |s| ==>
      r[i].(status := s[i].status, updatedAt := s[i].updatedAt, completedAt := s[i].completedAt) == s[i]
  {
    seq(|s|, i requires 0 <= i < |s| => Finalize(s[i], today, now))
  }

  /** The rows the pass selects, in table order. */
  function DueRows(s: seq<Appointment>, today: Date): (r: seq<Appointment>)
    ensures forall i :: 0 <= i < |r| ==> IsDue(r[i], today)
  {
    if s == [] then []
    else DueRows(s[..|s| - 1], today) + (if IsDue(s[|s| - 1], today) then [s[|s| - 1]] else [])
  }

  /** The notification the pass sends for one selected row. A rejection
      carries no action; a completion asks for a rating and names the
      appointment in its payload. */
  function Notice(a: Appointment, id: int, now: Ticks, formatDate: Date -> string): (n: Notification)
    ensures n.id == id && n.userId == a.userId && !n.isRead && n.createdAt == now
    ensures a.status == Awaiting ==>
      n.actionType == None && n.actionPayload == None && n.actionLabel == None
    ensures a.status != Awaiting ==>
      && n.actionType == Some(RatingActionType)
      && n.actionLabel == Some(RatingActionLabel)
      && n.actionPayload.Some?
  {
    if a.status == Awaiting then
      Notification(id, a.userId, RejectedSubject, RejectedText + formatDate(a.date) + ".", false, now,
                   None, None, None)
    else
      Notification(id, a.userId, CompletedSubject, CompletedText, false, now,
                   Some(RatingActionType), Some(IntToString(a.id)), Some(RatingActionLabel))
  }

  /** The rating link of a completion notice reads back as the appointment's id. */
  lemma NoticePayloadNamesAppointment(a: Appointment, id: int, now: Ticks, formatDate: Date -> string)
    requires a.status != Awaiting
    ensures ParseInt(Notice(a, id, now, formatDate).actionPayload.value) == Some(a.id)
  {
    IntToStringRoundTrip(a.id);
  }

  /** The notifications of one pass, numbered from the store's next id. */
  function Notices(due: seq<Appointment>, firstId: int, now: Ticks, formatDate: Date -> string): seq<Notification>
  {
    seq(|due|, j requires 0 <= j < |due| => Notice(due[j], firstId + j, now, formatDate))
  }

  /** One iteration of the service loop, with the clock read once as
      (today, now). Returns how many rows it finalised. */
  method Sweep(db: Db, today: Date, now: Ticks, formatDate: Date -> string) returns (processed: nat)
    requires db.Valid()
    modifies db`appointments, db`notifications, db`nextNotificationId
    ensures db.Valid()
    ensures db.appointments == SweptTable(old(db.appointments), today, now)
    ensures var due := DueRows(old(db.appointments), today);
      && processed == |due|
      && db.notifications == old(db.notifications) + Notices(due, old(db.nextNotificationId), now, formatDate)
      && db.nextNotificationId == old(db.nextNotificationId) + |due|
  {
    ghost var s := db.appointments;
    ghost var firstId := db.nextNotificationId;
    ghost var sent := db.notifications;
    processed := 0;
    var i := 0;
    SweptStart(s, today, now, formatDate, firstId, sent);
    while i < |db.appointments|
      invariant i <= |s| == |db.appointments|
      invariant SweptUpTo(s, i, today, now, formatDate, firstId, sent,
                          db.appointments, db.notifications, db.nextNotificationId, processed)
      invariant db.Valid()
    {
      ghost var apps, notes, next, count := db.appointments, db.notifications, db.nextNotificationId, processed;
      var due := FinalizeRow(db, i, today, now, formatDate);
      if due {
        processed := processed + 1;
      }
      SweptAdvance(s, i, today, now, formatDate, firstId, sent, apps, notes, next, count, due,
                   db.appointments, db.notifications, db.nextNotificationId, processed);
      i := i + 1;
    }
    SweptDone(s, i, today, now, formatDate, firstId, sent, db.appointments, db.notifications,
              db.nextNotificationId, processed);
  }

  /** The loop invariant of Sweep: the first i rows are finalised, and one
      notice has gone out per due row among them. */
  ghost predicate SweptUpTo(s: seq<Appointment>, i: nat, today: Date, now: Ticks, formatDate: Date -> string,
                            firstId: int, sent: seq<Notification>,
                            apps: seq<Appointment>, notes: seq<Notification>, next: int, processed: nat)
  {
    && i <= |s|
    && apps == SweptTable(s[..i], today, now) + s[i..]
    && processed == |DueRows(s[..i], today)|
    && notes == sent + Notices(DueRows(s[..i], today), firstId, now, formatDate)
    && next == firstId + processed
  }

  lemma SweptStart(s: seq<Appointment>, today: Date, now: Ticks, formatDate: Date -> string,
                   firstId: int, sent: seq<Notification>)
    ensures SweptUpTo(s, 0, today, now, formatDate, firstId, sent, s, sent, firstId, 0)
  {
    assert s[..0] == [] && s[0..] == s;
  }

  lemma SweptDone(s: seq<Appointment>, i: nat, today: Date, now: Ticks, formatDate: Date -> string,
                  firstId: int, sent: seq<Notification>,
                  apps: seq<Appointment>, notes: seq<Notification>, next: int, processed: nat)
    requires i == |s| && SweptUpTo(s, i, today, now, formatDate, firstId, sent, apps, notes, next, processed)
    ensures apps == SweptTable(s, today, now)
    ensures var due := DueRows(s, today);
      processed == |due| && notes == sent + Notices(due, firstId, now, formatDate) && next == firstId + |due|
  {
    assert s[..|s|] == s;
  }

  /** Finalising row i moves the invariant from i to i + 1. */
  lemma SweptAdvance(s: seq<Appointment>, i: nat, today: Date, now: Ticks, formatDate: Date -> string,
                     firstId: int, sent: seq<Notification>,
                     apps: seq<Appointment>, notes: seq<Notification>, next: int, processed: nat, due: bool,
                     apps': seq<Appointment>, notes': seq<Notification>, next': int, processed': nat)
    requires i < |s|
    requires SweptUpTo(s, i, today, now, formatDate, firstId, sent, apps, notes, next, processed)
    requires due == IsDue(apps[i], today)
    requires apps' == apps[i := Finalize(apps[i], today, now)]
    requires notes' == notes + (if due then [Notice(apps[i], next, now, formatDate)] else [])
    requires next' == next + (if due then 1 else 0) && processed' == processed + (if due then 1 else 0)
    ensures SweptUpTo(s, i + 1, today, now, formatDate, firstId, sent, apps', notes', next', processed')
  {
    SweepStep(s, i, today, now, firstId, formatDate);
    assert apps[i] == s[i];
    var before := Notices(DueRows(s[..i], today), firstId, now, formatDate);
    var added := if due then [Notice(s[i], next, now, formatDate)] else [];
    assert sent + before + added == sent + (before + added);
  }

  /** The body of the service's foreach for row i: a due Awaiting row is
      rejected and its user told so; a due Accepted row is completed and
      its user asked for a rating. Any other row is left alone. */
  method FinalizeRow(db: Db, i: nat, today: Date, now: Ticks, formatDate: Date -> string) returns (due: bool)
    requires db.Valid() && i < |db.appointments|
    modifies db`appointments, db`notifications, db`nextNotificationId
    ensures db.Valid()
    ensures var a := old(db.appointments[i]);
      && due == IsDue(a, today)
      && db.appointments == old(db.appointments)[i := Finalize(a, today, now)]
      && db.notifications == old(db.notifications)
           + (if due then [Notice(a, old(db.nextNotificationId), now, formatDate)] else [])
      && db.nextNotificationId == old(db.nextNotificationId) + (if due then 1 else 0)
  {
    var a := db.appointments[i];
    due := IsDue(a, today);
    if due && a.status == Awaiting {
      var b := a.(status := Rejected, updatedAt := Some(now));
      SetRow(db, i, b);
      var text := RejectedText + formatDate(a.date) + ".";
      var _ := NotificationService.CreateNotification(db, a.userId, RejectedSubject, text, None, None, None, now);
    } else if due {
      var b := a.(status := Completed, updatedAt := Some(now), completedAt := Some(now));
      SetRow(db, i, b);
      var _ := NotificationService.CreateNotification(db, a.userId, CompletedSubject, CompletedText,
                  Some(RatingActionType), Some(IntToString(a.id)), Some(RatingActionLabel), now);
    }
  }

  /** SaveChanges for one rewritten row: its id, slot, date and notes stay. */
  method SetRow(db: Db, i: nat, b: Appointment)
    requires db.Valid() && i < |db.appointments|
    requires b.id == db.appointments[i].id && b.slotId == db.appointments[i].slotId
    requires b.date == db.appointments[i].date && b.notes == db.appointments[i].notes
    modifies db`appointments
    ensures db.Valid() && db.appointments == old(db.appointments)[i := b]
  {
    AppointmentsOkUpdate(db.appointments, db.nextAppointmentId, i, b);
    db.appointments := db.appointments[i := b];
    AppointmentsReplaced(db);
  }

  /** A pass that finds nothing due leaves the table as it was (the source
      then skips saving altogether). */
  lemma {:induction false} NothingDueNothingChanges(s: seq<Appointment>, today: Date, now: Ticks)
    requires DueRows(s, today) == []
    ensures SweptTable(s, today, now) == s
  {
    DueRowsMembers(s, today);
  }

  /** How the prefix-wise description of the pass grows by one row. */
  lemma SweepStep(s: seq<Appointment>, i: nat, today: Date, now: Ticks, firstId: int, formatDate: Date -> string)
    requires i < |s|
    ensures SweptTable(s[..i + 1], today, now) + s[i + 1..]
         == (SweptTable(s[..i], today, now) + s[i..])[i := Finalize(s[i], today, now)]
    ensures var due := DueRows(s[..i], today);
      && DueRows(s[..i + 1], today) == due + (if IsDue(s[i], today) then [s[i]] else [])
      && Notices(DueRows(s[..i + 1], today), firstId, now, formatDate)
         == Notices(due, firstId, now, formatDate)
            + (if IsDue(s[i], today) then [Notice(s[i], firstId + |due|, now, formatDate)] else [])
  {
    assert s[..i + 1][..i] == s[..i];
  }

  lemma {:induction false} DueRowsMembers(s: seq<Appointment>, today: Date)
    ensures forall a :: a in DueRows(s, today) <==> a in s && IsDue(a, today)
  {
    if s != [] {
      var init := s[..|s| - 1];
      DueRowsMembers(init, today);
      assert s == init + [s[|s| - 1]];
    }
  }

  /** After one pass nothing is left for a later pass on the same day. */
  lemma {:induction false} SweepLeavesNothingDue(s: seq<Appointment>, today: Date, now: Ticks)
    ensures DueRows(SweptTable(s, today, now), today) == []
  {
    if s != [] {
      var init := s[..|s| - 1];
      SweepLeavesNothingDue(init, today, now);
      assert SweptTable(s, today, now)[..|s| - 1] == SweptTable(init, today, now);
    }
  }

  /** Idempotence: a second pass with the same today rewrites no row and
      sends no notification. */
  lemma SecondSweepChangesNothing(s: seq<Appointment>, today: Date, now: Ticks, later: Ticks, firstId: int,
                                  formatDate: Date -> string)
    ensures SweptTable(SweptTable(s, today, now), today, later) == SweptTable(s, today, now)
    ensures Notices(DueRows(SweptTable(s, today, now), today), firstId, later, formatDate) == []
  {
    SweepLeavesNothingDue(s, today, now);
  }

  /** A row dated today is finalised by today's pass; a row dated after today is not. */
  lemma {:induction false} DueRowsByDate(s: seq<Appointment>, today: Date, k: nat)
    requires k < |s| && IsPending(s[k].status)
    ensures s[k].date <= today ==> s[k] in DueRows(s, today)
    ensures s[k].date > today ==> SweptTable(s, today, 0)[k] == s[k] && s[k] !in DueRows(s, today)
  {
    DueRowsMembers(s, today);
  }

  /** A booking that is never answered is rejected by the first pass on or
      after its date. */
  lemma UnansweredBookingIsRejected(id: int, trainerId: int, userId: string, slotId: int, date: Date,
                                    time: int, notes: Option<string>, created: Ticks, today: Date, now: Ticks)
    requires date <= today
    ensures var a := NewAppointment(id, trainerId, userId, slotId, date, time, notes, created);
            Finalize(a, today, now).status == Rejected && Finalize(a, today, now).completedAt == None
  {
  }

  /** The pass only moves Awaiting to Rejected and Accepted to Completed;
      Rejected, Completed and any other code are left as they are. */
  lemma SweepTransitions(s: seq<Appointment>, today: Date, now: Ticks, k: nat)
    requires k < |s|
    ensures var b := SweptTable(s, today, now)[k];
      || b == s[k]
      || (s[k].status == Awaiting && b.status == Rejected)
      || (s[k].status == Accepted && b.status == Completed)
    ensures !IsPending(s[k].status) ==> SweptTable(s, today, now)[k] == s[k]
  {
  }
}
