/** The Appointment record: one booking of a schedule slot on a given date. */
module Appointments {
  import opened Common

  // Status codes as stored in the Status column.
  const Awaiting: int := 0
  const Accepted: int := 1
  const Rejected: int := 2
  const Completed: int := 3

  /** Width of the Notes column. */
  const NotesMaxLength: nat := 500

  datatype Appointment = Appointment(
    id: int,
    trainerId: int,
    userId: string,
    slotId: int,
    date: Date,
    time: int,                    // a TimeSpan, in ticks
    notes: Option<string>,
    status: int,
    createdAt: Ticks,
    updatedAt: Option<Ticks>,
    completedAt: Option<Ticks>)

  function AppointmentKey(a: Appointment): int { a.id }

  /** Awaiting and Accepted are the only statuses still waiting for a decision. */
  predicate IsPending(status: int) { status == Awaiting || status == Accepted }

  /** A new row with the record's defaults: Awaiting, created now, never
      updated and never completed. */
  function NewAppointment(id: int, trainerId: int, userId: string, slotId: int,
                          date: Date, time: int, notes: Option<string>, now: Ticks): (a: Appointment)
    ensures IsPending(a.status) && a.status != Accepted
    ensures a.updatedAt == None && a.completedAt == None
    ensures a.id == id && a.userId == userId && a.slotId == slotId && a.date == date
  {
    Appointment(id, trainerId, userId, slotId, date, time, notes, Awaiting, now, None, None)
  }

  predicate NotesFit(a: Appointment)
  {
    a.notes.None? || |a.notes.value| <= NotesMaxLength
  }

  /** Some row already books this slot on this date, whatever its status. */
  predicate SlotDateTaken(s: seq<Appointment>, slotId: int, date: Date)
  {
    exists i :: 0 <= i < |s| && s[i].slotId == slotId && s[i].date == date
  }

  /** No two rows book the same slot on the same date. */
  ghost predicate SlotDateUnique(s: seq<Appointment>)
  {
    forall i, j :: 0 <= i < j < |s| ==> s[i].slotId != s[j].slotId || s[i].date != s[j].date
  }

  /** Adding a row for a (slot, date) pair nobody holds yet keeps the pairs unique. */
  lemma AppendFreeSlotDate(s: seq<Appointment>, a: Appointment)
    requires SlotDateUnique(s) && !SlotDateTaken(s, a.slotId, a.date)
    ensures SlotDateUnique(s + [a])
  {
    var t := s + [a];
    forall i, j | 0 <= i < j < |t| ensures t[i].slotId != t[j].slotId || t[i].date != t[j].date {
      if j == |s| {
        assert t[i] == s[i];
      }
    }
  }
}
