/** A trainer's weekly schedule: listing their slots, creating, editing and
    deleting a slot. Only the trainer who owns a slot may edit or delete it. */
module ScheduleController {
  import opened Common
  import opened Seqs
  import opened Entities
  import opened Store

  datatype ScheduleError =
    | BadDay             // day of week outside 0..6 (Create only)
    | NoUser             // no signed-in user: redirected home
    | NoTrainer          // the user has no trainer record: redirected home
    | BadTime            // a time that does not parse
    | EndNotAfterStart   // end time not after start time
    | NotFound           // no slot with that id
    | Forbidden          // the slot belongs to another trainer

  /** The signed-in user is the trainer the slot belongs to. A user without a
      trainer record owns nothing (a null trainer id never equals the slot's). */
  predicate Owns(trainers: seq<Trainer>, userId: string, slot: ScheduleSlot)
  {
    var t := TrainerOfUser(trainers, userId);
    t.Some? && t.value.id == slot.trainerId
  }

  /** The guard shared by Edit and Delete, GET and POST: the slot must exist,
      someone must be signed in, and that user must own the slot. */
  function SlotAccess(trainers: seq<Trainer>, slots: seq<ScheduleSlot>, user: Option<string>, id: int)
    : (r: Result<nat, ScheduleError>)
    ensures r.Ok? ==> r.value < |slots| && slots[r.value].id == id
                      && user.Some? && Owns(trainers, user.value, slots[r.value])
    ensures r == Err(NotFound) <==> forall i :: 0 <= i < |slots| ==> slots[i].id != id
    ensures r == Err(NoUser) <==> (exists i :: 0 <= i < |slots| && slots[i].id == id) && user.None?
    ensures r.Err? ==> r.error in {NotFound, NoUser, Forbidden}
  {
    var k := IndexOfKey(slots, SlotKey, id);
    if k < 0 then Err(NotFound)
    else if user.None? then Err(NoUser)
    else if !Owns(trainers, user.value, slots[k]) then Err(Forbidden)
    else Ok(k)
  }

  /** With ids unique, access is refused exactly when the slot is someone else's. */
  lemma SlotAccessForbidden(trainers: seq<Trainer>, slots: seq<ScheduleSlot>, userId: string, k: nat)
    requires k < |slots|
    requires forall i, j :: 0 <= i < j < |slots| ==> slots[i].id != slots[j].id
    ensures SlotAccess(trainers, slots, Some(userId), slots[k].id) == Err(Forbidden)
            <==> !Owns(trainers, userId, slots[k])
    ensures SlotAccess(trainers, slots, Some(userId), slots[k].id).Ok?
            <==> Owns(trainers, userId, slots[k])
  {
    var r := IndexOfKey(slots, SlotKey, slots[k].id);
    assert r == k;
  }

  /** Create (POST): adds one slot for the signed-in trainer. The new slot's
      Hour keeps its default 0. */
  method CreateSlot(db: Db, user: Option<string>, dayOfWeek: int, startTime: string, endTime: string,
                    capacity: int, now: Ticks, parseTime: string -> Option<TimeOfDay>)
    returns (r: Result<int, ScheduleError>)
    requires db.Valid()
    modifies db`slots, db`nextSlotId
    ensures db.Valid()
    ensures var dayOk := 0 <= dayOfWeek <= 6;
      var trainer := if user.Some? then TrainerOfUser(db.trainers, user.value) else None;
      var start := parseTime(startTime);
      var end := parseTime(endTime);
      && (r == Err(BadDay) <==> !dayOk)
      && (r == Err(NoUser) <==> dayOk && user.None?)
      && (r == Err(NoTrainer) <==> dayOk && user.Some? && trainer.None?)
      && (r == Err(BadTime) <==> dayOk && trainer.Some? && (start.None? || end.None?))
      && (r == Err(EndNotAfterStart) <==>
            dayOk && trainer.Some? && start.Some? && end.Some? && end.value <= start.value)
      && (r.Ok? <==> dayOk && trainer.Some? && start.Some? && end.Some? && start.value < end.value)
      && (r.Ok? ==>
            && trainer.Some? && start.Some? && end.Some?
            && r.value == old(db.nextSlotId)
            && db.nextSlotId == old(db.nextSlotId) + 1
            && db.slots == old(db.slots) +
                 [ScheduleSlot(r.value, trainer.value.id, dayOfWeek, 0, start.value, end.value, capacity, now, now)])
    ensures r.Err? ==> db.slots == old(db.slots) && db.nextSlotId == old(db.nextSlotId)
  {
    if dayOfWeek < 0 || dayOfWeek > 6 {
      return Err(BadDay);
    }
    if user.None? {
      return Err(NoUser);
    }
    var trainer := TrainerOfUser(db.trainers, user.value);
    if trainer.None? {
      return Err(NoTrainer);
    }
    var start := parseTime(startTime);
    var end := parseTime(endTime);
    if start.None? || end.None? {
      return Err(BadTime);
    }
    if end.value <= start.value {
      return Err(EndNotAfterStart);
    }
    var id := db.nextSlotId;
    var slot := ScheduleSlot(id, trainer.value.id, dayOfWeek, 0, start.value, end.value, capacity, now, now);
    KeysBelowAppend(db.slots, SlotKey, id, slot);
    db.slots := db.slots + [slot];
    db.nextSlotId := id + 1;
    SlotsReplaced(db);
    r := Ok(id);
  }

  /** The slot after an edit: day, start, end, capacity and UpdatedAt are
      overwritten; id, trainer, Hour and CreatedAt are kept. */
  function Edited(slot: ScheduleSlot, dayOfWeek: int, start: TimeOfDay, end: TimeOfDay, capacity: int, now: Ticks)
    : (r: ScheduleSlot)
    ensures r.id == slot.id && r.trainerId == slot.trainerId && r.hour == slot.hour && r.createdAt == slot.createdAt
    ensures r.dayOfWeek == dayOfWeek && r.startTime == start && r.endTime == end
    ensures r.capacity == capacity && r.updatedAt == now
  {
    slot.(dayOfWeek := dayOfWeek, startTime := start, endTime := end, capacity := capacity, updatedAt := now)
  }

  /** Edit (POST): the owner rewrites a slot. Unlike Create, the day of week
      is not range-checked. */
  method EditSlot(db: Db, user: Option<string>, id: int, dayOfWeek: int, startTime: string, endTime: string,
                  capacity: int, now: Ticks, parseTime: string -> Option<TimeOfDay>)
    returns (r: Result<int, ScheduleError>)
    requires db.Valid()
    modifies db`slots
    ensures db.Valid()
    ensures var access := SlotAccess(db.trainers, old(db.slots), user, id);
      var start := parseTime(startTime);
      var end := parseTime(endTime);
      && (access.Err? ==> r == Err(access.error))
      && (r == Err(BadTime) <==> access.Ok? && (start.None? || end.None?))
      && (r == Err(EndNotAfterStart) <==> access.Ok? && start.Some? && end.Some? && end.value <= start.value)
      && (r.Ok? <==> access.Ok? && start.Some? && end.Some? && start.value < end.value)
      && (r.Ok? ==>
            && access.Ok? && start.Some? && end.Some?
            && r.value == id
            && db.slots == old(db.slots)[access.value :=
                 Edited(old(db.slots)[access.value], dayOfWeek, start.value, end.value, capacity, now)])
    ensures r.Err? ==> db.slots == old(db.slots)
  {
    var access := SlotAccess(db.trainers, db.slots, user, id);
    if access.Err? {
      return Err(access.error);
    }
    var start := parseTime(startTime);
    var end := parseTime(endTime);
    if start.None? || end.None? {
      return Err(BadTime);
    }
    if end.value <= start.value {
      return Err(EndNotAfterStart);
    }
    var k := access.value;
    var s := db.slots;
    var slot := Edited(s[k], dayOfWeek, start.value, end.value, capacity, now);
    db.slots := s[k := slot];
    assert forall i :: 0 <= i < |s| ==> SlotKey(db.slots[i]) == SlotKey(s[i]);
    r := Ok(id);
  }

  /** Delete (POST): the owner removes exactly that slot. */
  method DeleteSlot(db: Db, user: Option<string>, id: int) returns (r: Result<int, ScheduleError>)
    requires db.Valid()
    modifies db`slots
    ensures db.Valid()
    ensures var access := SlotAccess(db.trainers, old(db.slots), user, id);
      && (access.Err? ==> r == Err(access.error) && db.slots == old(db.slots))
      && (access.Ok? ==>
            r == Ok(id) && db.slots == old(db.slots)[..access.value] + old(db.slots)[access.value + 1..])
  {
    var access := SlotAccess(db.trainers, db.slots, user, id);
    if access.Err? {
      return Err(access.error);
    }
    var k := access.value;
    KeysBelowRemove(db.slots, SlotKey, db.nextSlotId, k);
    db.slots := db.slots[..k] + db.slots[k + 1..];
    r := Ok(id);
  }

  /** After a delete, no slot with that id is left and all others remain. */
  lemma DeleteRemovesOnlyTarget(s: seq<ScheduleSlot>, next: int, k: nat)
    requires KeysBelow(s, SlotKey, next) && k < |s|
    ensures var r := s[..k] + s[k + 1..];
      && |r| == |s| - 1
      && (forall i :: 0 <= i < |r| ==> r[i].id != s[k].id)
      && (forall i :: 0 <= i < |s| && i != k ==> s[i] in r)
  {
    var r := s[..k] + s[k + 1..];
    forall i | 0 <= i < |s| && i != k ensures s[i] in r {
      if i < k { assert r[i] == s[i]; } else { assert r[i - 1] == s[i]; }
    }
    forall i | 0 <= i < |r| ensures r[i].id != s[k].id {
      var i' := if i < k then i else i + 1;
      assert r[i] == s[i'] && SlotKey(s[i']) != SlotKey(s[k]);
    }
  }

  function OfTrainer(trainerId: int): ScheduleSlot -> bool
  {
    (s: ScheduleSlot) => s.trainerId == trainerId
  }

  /** OrderBy(DayOfWeek).ThenBy(StartTime) as one key: start times are below a
      day's worth of ticks, so the day dominates. */
  function DayThenStart(s: ScheduleSlot): int
  {
    s.dayOfWeek * TicksPerDay + s.startTime
  }

  /** The key orders slots by day first and by start time within a day. */
  lemma DayThenStartOrder(a: ScheduleSlot, b: ScheduleSlot)
    ensures DayThenStart(a) <= DayThenStart(b) <==>
      a.dayOfWeek < b.dayOfWeek || (a.dayOfWeek == b.dayOfWeek && a.startTime <= b.startTime)
  {
    if a.dayOfWeek < b.dayOfWeek {
      assert a.dayOfWeek * TicksPerDay + TicksPerDay <= b.dayOfWeek * TicksPerDay;
    } else if a.dayOfWeek > b.dayOfWeek {
      assert b.dayOfWeek * TicksPerDay + TicksPerDay <= a.dayOfWeek * TicksPerDay;
    }
  }

  /** MySchedule: the signed-in trainer's slots by day, then start time. */
  function MySchedule(trainers: seq<Trainer>, slots: seq<ScheduleSlot>, user: Option<string>)
    : (r: Result<seq<ScheduleSlot>, ScheduleError>)
    ensures r == Err(NoUser) <==> user.None?
    ensures r == Err(NoTrainer) <==> user.Some? && TrainerOfUser(trainers, user.value).None?
    ensures r.Ok? <==> user.Some? && TrainerOfUser(trainers, user.value).Some?
    ensures r.Ok? ==> var t := TrainerOfUser(trainers, user.value).value;
      && (forall s :: s in r.value <==> s in slots && s.trainerId == t.id)
      && multiset(r.value) == multiset(Filter(slots, OfTrainer(t.id)))
      && (forall i, j :: 0 <= i < j < |r.value| ==>
            r.value[i].dayOfWeek < r.value[j].dayOfWeek ||
            (r.value[i].dayOfWeek == r.value[j].dayOfWeek && r.value[i].startTime <= r.value[j].startTime))
  {
    if user.None? then Err(NoUser)
    else
      var t := TrainerOfUser(trainers, user.value);
      if t.None? then Err(NoTrainer)
      else
        var mine := Filter(slots, OfTrainer(t.value.id));
        var sorted := SortBy(mine, DayThenStart);
        FilterMembers(slots, OfTrainer(t.value.id));
        SortByMembers(mine, DayThenStart);
        forall i, j | 0 <= i < j < |sorted|
          ensures sorted[i].dayOfWeek < sorted[j].dayOfWeek ||
                  (sorted[i].dayOfWeek == sorted[j].dayOfWeek && sorted[i].startTime <= sorted[j].startTime)
        {
          DayThenStartOrder(sorted[i], sorted[j]);
        }
        Ok(sorted)
  }
}
