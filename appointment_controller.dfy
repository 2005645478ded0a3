/** The appointment API's "rejected today" query: the caller's appointments
    rejected with today's date, most recently updated first. */
module AppointmentController {
  import opened Common
  import opened Seqs
  import opened Appointments
  import opened Entities
  import opened Store

  datatype AppointmentError = Unauthorized   // nobody signed in

  /** One row of the answer. The trainer's name and the slot's hour come from
      the joined rows; they are missing only if the row they point at is. */
  datatype RejectedView = RejectedView(
    id: int,
    trainerName: Option<string>,
    appointmentDate: Date,
    scheduleSlotHour: Option<int>,
    updatedAt: Option<Ticks>)

  predicate IsRejectedToday(a: Appointment, userId: string, today: Date)
  {
    a.userId == userId && a.status == Rejected && a.date == today
  }

  function RejectedTodayFor(userId: string, today: Date): Appointment -> bool
  {
    (a: Appointment) => IsRejectedToday(a, userId, today)
  }

  /** Sort key for OrderByDescending(UpdatedAt) on SQL Server, where NULL is
      the smallest value: later updates first, never-updated rows last. */
  function NewestFirstKey(a: Appointment): int
  {
    match a.updatedAt
    case Some(t) => -(t as int)
    case None => 1
  }

  /** x may come before y in a list ordered by UpdatedAt descending. */
  predicate NotOlder(x: Option<Ticks>, y: Option<Ticks>)
  {
    match (x, y)
    case (_, None) => true
    case (None, Some(_)) => false
    case (Some(s), Some(t)) => s >= t
  }

  /** The key orders exactly as UpdatedAt descending with NULLs last. */
  lemma NewestFirstKeyOrder(a: Appointment, b: Appointment)
    ensures NewestFirstKey(a) <= NewestFirstKey(b) <==> NotOlder(a.updatedAt, b.updatedAt)
  {
  }

  /** The Select projection of one appointment. */
  function View(a: Appointment, trainers: seq<Trainer>, slots: seq<ScheduleSlot>): (r: RejectedView)
    ensures r.id == a.id && r.appointmentDate == a.date && r.updatedAt == a.updatedAt
    ensures r.trainerName.Some? <==> HasTrainer(trainers, a.trainerId)
    ensures r.trainerName.Some? ==> exists t :: t in trainers && t.id == a.trainerId && t.name == r.trainerName.value
    ensures r.scheduleSlotHour.Some? <==> exists s :: s in slots && s.id == a.slotId
    ensures r.scheduleSlotHour.Some? ==> exists s :: s in slots && s.id == a.slotId && s.hour == r.scheduleSlotHour.value
  {
    var t := TrainerById(trainers, a.trainerId);
    var s := SlotById(slots, a.slotId);
    RejectedView(a.id,
                 if t.Some? then Some(t.value.name) else None,
                 a.date,
                 if s.Some? then Some(s.value.hour) else None,
                 a.updatedAt)
  }

  function Views(rows: seq<Appointment>, trainers: seq<Trainer>, slots: seq<ScheduleSlot>): (r: seq<RejectedView>)
    ensures |r| == |rows| && forall i :: 0 <= i < |rows| ==> r[i] == View(rows[i], trainers, slots)
  {
    seq(|rows|, i requires 0 <= i < |rows| => View(rows[i], trainers, slots))
  }

  /** The matching appointments in answer order, before the projection. */
  function RejectedRows(appointments: seq<Appointment>, userId: string, today: Date): (r: seq<Appointment>)
    ensures forall a :: a in r <==> a in appointments && IsRejectedToday(a, userId, today)
    ensures multiset(r) == multiset(Filter(appointments, RejectedTodayFor(userId, today)))
    ensures forall i, j :: 0 <= i < j < |r| ==> NotOlder(r[i].updatedAt, r[j].updatedAt)
  {
    var p := RejectedTodayFor(userId, today);
    FilterMembers(appointments, p);
    SortByMembers(Filter(appointments, p), NewestFirstKey);
    var r := SortBy(Filter(appointments, p), NewestFirstKey);
    assert forall i, j :: 0 <= i < j < |r| ==> NotOlder(r[i].updatedAt, r[j].updatedAt) by {
      forall i, j | 0 <= i < j < |r| ensures NotOlder(r[i].updatedAt, r[j].updatedAt) {
        NewestFirstKeyOrder(r[i], r[j]);
      }
    }
    r
  }

  /** GetRejectedTodayAppointments. */
  function RejectedToday(appointments: seq<Appointment>, trainers: seq<Trainer>, slots: seq<ScheduleSlot>,
                         user: Option<string>, today: Date)
    : (r: Result<seq<RejectedView>, AppointmentError>)
    ensures r.Err? <==> user.None?
  {
    if user.None? then Err(Unauthorized)
    else Ok(Views(RejectedRows(appointments, user.value, today), trainers, slots))
  }

  /** Each answer row comes from one of the caller's appointments rejected
      today, and every such appointment is in the answer. */
  lemma RejectedTodayMembers(appointments: seq<Appointment>, trainers: seq<Trainer>, slots: seq<ScheduleSlot>,
                             userId: string, today: Date)
    ensures var r := RejectedToday(appointments, trainers, slots, Some(userId), today).value;
      && (forall v :: v in r ==> exists a :: a in appointments && IsRejectedToday(a, userId, today)
                                             && v == View(a, trainers, slots))
      && (forall a :: a in appointments && IsRejectedToday(a, userId, today) ==> View(a, trainers, slots) in r)
  {
    var rows := RejectedRows(appointments, userId, today);
    var r := Views(rows, trainers, slots);
    forall v | v in r
      ensures exists a :: a in appointments && IsRejectedToday(a, userId, today) && v == View(a, trainers, slots)
    {
      var i :| 0 <= i < |r| && r[i] == v;
      assert rows[i] in rows;
    }
    forall a | a in appointments && IsRejectedToday(a, userId, today) ensures View(a, trainers, slots) in r {
      var i :| 0 <= i < |rows| && rows[i] == a;
      assert r[i] == View(a, trainers, slots);
    }
  }

  /** The answer is ordered by UpdatedAt descending, rows never updated last. */
  lemma RejectedTodayOrder(appointments: seq<Appointment>, trainers: seq<Trainer>, slots: seq<ScheduleSlot>,
                           userId: string, today: Date)
    ensures var r := RejectedToday(appointments, trainers, slots, Some(userId), today).value;
      forall i, j :: 0 <= i < j < |r| ==> NotOlder(r[i].updatedAt, r[j].updatedAt)
  {
    var rows := RejectedRows(appointments, userId, today);
    var r := Views(rows, trainers, slots);
    assert forall i :: 0 <= i < |r| ==> r[i].updatedAt == rows[i].updatedAt;
  }

  /** Nothing else leaks in: an appointment of another user, of another day
      or in another status is never part of the answer. */
  lemma OthersNotListed(appointments: seq<Appointment>, trainers: seq<Trainer>, slots: seq<ScheduleSlot>,
                        userId: string, today: Date, a: Appointment)
    requires a in appointments && !IsRejectedToday(a, userId, today)
    requires forall b :: b in appointments && b.id == a.id ==> b == a
    ensures View(a, trainers, slots) !in RejectedToday(appointments, trainers, slots, Some(userId), today).value
  {
    RejectedTodayMembers(appointments, trainers, slots, userId, today);
  }

  /** The answer holds one row per matching appointment. */
  lemma RejectedTodayCount(appointments: seq<Appointment>, trainers: seq<Trainer>, slots: seq<ScheduleSlot>,
                           userId: string, today: Date)
    ensures |RejectedToday(appointments, trainers, slots, Some(userId), today).value|
         == |Filter(appointments, RejectedTodayFor(userId, today))|
  {
    var rows := RejectedRows(appointments, userId, today);
    assert |rows| == |multiset(rows)|;
  }
}
