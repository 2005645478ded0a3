/** The trainer pages that change data: booking a slot on a date, and a
    trainer adding or removing one of the services they offer. */
module TrainerController {
  import opened Common
  import opened Seqs
  import opened Appointments
  import opened Entities
  import opened Store
  import opened Links

  datatype BookingError =
    | NotFound       // no such trainer or no such slot
    | DayMismatch    // the date falls on another weekday than the slot's
    | SlotTaken      // the slot is already booked on that date
    | NotesTooLong   // the database refuses notes wider than the column

  /** notes ?? string.Empty */
  function NotesOrEmpty(notes: Option<string>): (r: string)
    ensures notes.Some? ==> r == notes.value
    ensures notes.None? ==> r == ""
  {
    if notes.Some? then notes.value else ""
  }

  /** Books slot slotId of trainer trainerId on date for the signed-in user.
      On success the new appointment's id is returned; on any error the
      appointments table is left as it was. */
  method BookAppointment(db: Db, userId: string, trainerId: int, slotId: int, date: Date,
                         notes: Option<string>, now: Ticks)
    returns (r: Result<int, BookingError>)
    requires db.Valid()
    modifies db`appointments, db`nextAppointmentId
    ensures db.Valid()
    ensures var slot := SlotById(db.slots, slotId);
      && (r == Err(NotFound) <==> !HasTrainer(db.trainers, trainerId) || slot.None?)
      && (r == Err(DayMismatch) <==>
            HasTrainer(db.trainers, trainerId) && slot.Some? && DayOfWeek(date) != slot.value.dayOfWeek)
      && (r == Err(SlotTaken) <==>
            HasTrainer(db.trainers, trainerId) && slot.Some? && DayOfWeek(date) == slot.value.dayOfWeek
            && SlotDateTaken(old(db.appointments), slotId, date))
      && (r == Err(NotesTooLong) <==>
            HasTrainer(db.trainers, trainerId) && slot.Some? && DayOfWeek(date) == slot.value.dayOfWeek
            && !SlotDateTaken(old(db.appointments), slotId, date)
            && |NotesOrEmpty(notes)| > NotesMaxLength)
      && (r.Ok? ==>
            && slot.Some?
            && r.value == old(db.nextAppointmentId)
            && db.nextAppointmentId == old(db.nextAppointmentId) + 1
            && db.appointments == old(db.appointments) +
                 [NewAppointment(r.value, trainerId, userId, slotId, date,
                                 slot.value.hour * TicksPerHour, Some(NotesOrEmpty(notes)), now)])
    ensures r.Err? ==> db.appointments == old(db.appointments) && db.nextAppointmentId == old(db.nextAppointmentId)
  {
    var slot := SlotById(db.slots, slotId);
    if !HasTrainer(db.trainers, trainerId) || slot.None? {
      return Err(NotFound);
    }
    if DayOfWeek(date) != slot.value.dayOfWeek {
      return Err(DayMismatch);
    }
    if SlotDateTaken(db.appointments, slotId, date) {
      return Err(SlotTaken);
    }
    var text := NotesOrEmpty(notes);
    if |text| > NotesMaxLength {
      return Err(NotesTooLong);
    }
    var id := db.nextAppointmentId;
    var a := NewAppointment(id, trainerId, userId, slotId, date, slot.value.hour * TicksPerHour, Some(text), now);
    BookingKeepsSlotDatesUnique(db.appointments, id, a);
    db.appointments := db.appointments + [a];
    db.nextAppointmentId := id + 1;
    AppointmentsReplaced(db);
    r := Ok(id);
  }

  /** AddService: the signed-in trainer offers serviceId, unless they already
      do. A user with no trainer record changes nothing. */
  method AddService(db: Db, userId: string, serviceId: int)
    requires db.Valid()
    modifies db`trainerServices
    ensures db.Valid()
    ensures match TrainerOfUser(db.trainers, userId)
      case None => db.trainerServices == old(db.trainerServices)
      case Some(t) => db.trainerServices == WithLink(old(db.trainerServices), t.id, serviceId, 0.0)
  {
    var trainer := TrainerOfUser(db.trainers, userId);
    if trainer.Some? {
      var t := trainer.value;
      WithLinkSpec(db.trainerServices, t.id, serviceId, 0.0);
      var k := LinkIndex(db.trainerServices, t.id, serviceId);
      if k < 0 {
        db.trainerServices := db.trainerServices + [TrainerService(t.id, serviceId, 0.0)];
      }
    }
  }

  /** RemoveService: the signed-in trainer stops offering serviceId; a
      missing link or a missing trainer record changes nothing. */
  method RemoveService(db: Db, userId: string, serviceId: int)
    requires db.Valid()
    modifies db`trainerServices
    ensures db.Valid()
    ensures match TrainerOfUser(db.trainers, userId)
      case None => db.trainerServices == old(db.trainerServices)
      case Some(t) => db.trainerServices == WithoutLink(old(db.trainerServices), t.id, serviceId)
  {
    var trainer := TrainerOfUser(db.trainers, userId);
    if trainer.Some? {
      var t := trainer.value;
      var s := db.trainerServices;
      WithoutLinkSpec(s, t.id, serviceId);
      var k := LinkIndex(s, t.id, serviceId);
      if k >= 0 {
        WithoutLinkAt(s, t.id, serviceId, k);
        db.trainerServices := s[..k] + s[k + 1..];
      } else {
        WithoutAbsentLink(s, t.id, serviceId);
      }
    }
  }

  /** A second booking of the same slot on the same date, by anyone, is refused. */
  lemma SecondBookingRefused(s: seq<Appointment>, a: Appointment)
    ensures SlotDateTaken(s + [a], a.slotId, a.date)
  {
    assert (s + [a])[|s|] == a;
  }

  /** A successful booking leaves every (slot, date) pair held by one row. */
  lemma BookingKeepsSlotDatesUnique(s: seq<Appointment>, next: int, a: Appointment)
    requires AppointmentsOk(s, next) && a.id == next && NotesFit(a)
    requires !SlotDateTaken(s, a.slotId, a.date)
    ensures AppointmentsOk(s + [a], next + 1)
    ensures SlotDateUnique(s + [a])
  {
    KeysBelowAppend(s, AppointmentKey, next, a);
    AppendFreeSlotDate(s, a);
  }
}
