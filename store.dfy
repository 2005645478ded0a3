/** The database the controllers share: one sequence of rows per table, in
    insertion order, and the next value of each identity column. */
module Store {
  import opened Common
  import opened Seqs
  import opened Appointments
  import opened Entities

  ghost predicate AppointmentsOk(s: seq<Appointment>, next: int)
  {
    && KeysBelow(s, AppointmentKey, next)
    && SlotDateUnique(s)
    && (forall i :: 0 <= i < |s| ==> NotesFit(s[i]))
  }

  /** Rewriting a row without touching its id, slot, date or notes keeps the
      appointments table well formed. */
  lemma AppointmentsOkUpdate(s: seq<Appointment>, next: int, k: nat, b: Appointment)
    requires AppointmentsOk(s, next) && k < |s|
    requires b.id == s[k].id && b.slotId == s[k].slotId && b.date == s[k].date && b.notes == s[k].notes
    ensures AppointmentsOk(s[k := b], next)
  {
    var t := s[k := b];
    assert forall i :: 0 <= i < |s| ==> AppointmentKey(t[i]) == AppointmentKey(s[i]);
  }

  predicate RatingInRange(r: Rating)
  {
    1 <= r.trainerRating <= 5 && 1 <= r.gymRating <= 5
  }

  ghost predicate RatingsOk(s: seq<Rating>, next: int)
  {
    && KeysBelow(s, RatingKey, next)
    && (forall i :: 0 <= i < |s| ==> RatingInRange(s[i]))
    && (forall i, j :: 0 <= i < j < |s| ==>
          s[i].appointmentId != s[j].appointmentId || s[i].userId != s[j].userId)
  }

  /** (TrainerId, ServiceId) is the key of the link table. */
  ghost predicate LinksUnique(s: seq<TrainerService>)
  {
    forall i, j :: 0 <= i < j < |s| ==>
      s[i].trainerId != s[j].trainerId || s[i].serviceId != s[j].serviceId
  }

  /** Every featured row points at exactly one trainer or one gym. */
  predicate FeaturedTarget(f: FeaturedItem)
  {
    f.trainerId.Some? != f.gymId.Some?
  }

  ghost predicate FeaturedOk(s: seq<FeaturedItem>, next: int)
  {
    KeysBelow(s, FeaturedKey, next) && forall i :: 0 <= i < |s| ==> FeaturedTarget(s[i])
  }

  ghost predicate TrainersOk(s: seq<Trainer>)
  {
    forall i, j :: 0 <= i < j < |s| ==> s[i].id != s[j].id
  }

  /** The ids of a run of catalogue features, in order. */
  function FeatureIds(fs: seq<GymFeature>): (r: seq<int>)
    ensures |r| == |fs| && forall i :: 0 <= i < |fs| ==> r[i] == fs[i].id
  {
    seq(|fs|, i requires 0 <= i < |fs| => fs[i].id)
  }

  lemma FeatureIdsAppend(a: seq<GymFeature>, b: seq<GymFeature>)
    ensures FeatureIds(a + b) == FeatureIds(a) + FeatureIds(b)
  {
  }

  /** The gym-feature join table refers only to stored features. */
  ghost predicate GymFeaturesExist(gyms: seq<Gym>, features: seq<GymFeature>)
  {
    forall i, x :: 0 <= i < |gyms| && x in gyms[i].features ==> x in FeatureIds(features)
  }

  /** Adding features to the catalogue keeps every listed feature stored. */
  lemma GymFeaturesExistAppend(gyms: seq<Gym>, features: seq<GymFeature>, more: seq<GymFeature>)
    requires GymFeaturesExist(gyms, features)
    ensures GymFeaturesExist(gyms, features + more)
  {
    FeatureIdsAppend(features, more);
  }

  class Db {
    var trainers: seq<Trainer>
    var slots: seq<ScheduleSlot>
    var appointments: seq<Appointment>
    var notifications: seq<Notification>
    var ratings: seq<Rating>
    var services: seq<Service>
    var trainerServices: seq<TrainerService>
    var featuredItems: seq<FeaturedItem>
    var gyms: seq<Gym>
    var gymFeatures: seq<GymFeature>

    var nextSlotId: int
    var nextAppointmentId: int
    var nextNotificationId: int
    var nextRatingId: int
    var nextServiceId: int
    var nextFeaturedId: int
    var nextGymId: int
    var nextFeatureId: int

    ghost predicate Valid()
      reads this
    {
      && TrainersOk(trainers)
      && KeysBelow(slots, SlotKey, nextSlotId)
      && AppointmentsOk(appointments, nextAppointmentId)
      && KeysBelow(notifications, NotificationKey, nextNotificationId)
      && RatingsOk(ratings, nextRatingId)
      && KeysBelow(services, ServiceKey, nextServiceId)
      && LinksUnique(trainerServices)
      && FeaturedOk(featuredItems, nextFeaturedId)
      && KeysBelow(gyms, GymKey, nextGymId)
      && KeysBelow(gymFeatures, FeatureKey, nextFeatureId)
      && GymFeaturesExist(gyms, gymFeatures)
    }

    /** A new database over a given set of trainers: every table empty but
        the seeded feature catalogue, identity columns starting at 1 (the
        features' at 7, after the seed). */
    constructor (trainers: seq<Trainer>)
      requires TrainersOk(trainers)
      ensures Valid() && this.trainers == trainers
      ensures slots == [] && appointments == [] && notifications == [] && ratings == []
      ensures services == [] && trainerServices == [] && featuredItems == []
      ensures gyms == [] && gymFeatures == SeedFeatures
      ensures nextSlotId == 1 && nextAppointmentId == 1 && nextNotificationId == 1 && nextRatingId == 1
      ensures nextServiceId == 1 && nextFeaturedId == 1 && nextGymId == 1
      ensures nextFeatureId == |SeedFeatures| + 1
    {
      this.trainers := trainers;
      slots, appointments, notifications, ratings := [], [], [], [];
      services, trainerServices, featuredItems, gyms := [], [], [], [];
      gymFeatures := SeedFeatures;
      nextSlotId, nextAppointmentId, nextNotificationId, nextRatingId := 1, 1, 1, 1;
      nextServiceId, nextFeaturedId, nextGymId, nextFeatureId := 1, 1, 1, 7;
      SeedFeaturesNumbered();
    }
  }

  /** The seeded features are numbered 1 to 6 in order, so their ids are
      distinct and below 7. */
  lemma SeedFeaturesNumbered()
    ensures KeysBelow(SeedFeatures, FeatureKey, |SeedFeatures| + 1)
  {
    assert forall i :: 0 <= i < |SeedFeatures| ==> FeatureKey(SeedFeatures[i]) == i + 1;
  }

  /** Rewriting the featured table alone keeps the database valid when the
      new rows satisfy that table's invariant. */
  twostate lemma FeaturedReplaced(db: Db)
    requires old(db.Valid())
    requires unchanged(db`trainers, db`slots, db`appointments, db`notifications, db`ratings)
    requires unchanged(db`services, db`trainerServices, db`gyms, db`gymFeatures)
    requires unchanged(db`nextSlotId, db`nextAppointmentId, db`nextNotificationId, db`nextRatingId)
    requires unchanged(db`nextServiceId, db`nextGymId, db`nextFeatureId)
    requires FeaturedOk(db.featuredItems, db.nextFeaturedId)
    ensures db.Valid()
  {
  }

  /** Rewriting the appointments table alone keeps the database valid when
      the new rows satisfy that table's invariant. */
  twostate lemma AppointmentsReplaced(db: Db)
    requires old(db.Valid())
    requires unchanged(db`trainers, db`slots, db`notifications, db`ratings, db`featuredItems)
    requires unchanged(db`services, db`trainerServices, db`gyms, db`gymFeatures)
    requires unchanged(db`nextSlotId, db`nextNotificationId, db`nextRatingId, db`nextFeaturedId)
    requires unchanged(db`nextServiceId, db`nextGymId, db`nextFeatureId)
    requires AppointmentsOk(db.appointments, db.nextAppointmentId)
    ensures db.Valid()
  {
  }

  /** Rewriting the slots table alone keeps the database valid when its ids
      stay below the next one. */
  twostate lemma SlotsReplaced(db: Db)
    requires old(db.Valid())
    requires unchanged(db`trainers, db`appointments, db`notifications, db`ratings, db`featuredItems)
    requires unchanged(db`services, db`trainerServices, db`gyms, db`gymFeatures)
    requires unchanged(db`nextAppointmentId, db`nextNotificationId, db`nextRatingId, db`nextFeaturedId)
    requires unchanged(db`nextServiceId, db`nextGymId, db`nextFeatureId)
    requires KeysBelow(db.slots, SlotKey, db.nextSlotId)
    ensures db.Valid()
  {
  }

  /** Rewriting the ratings table alone keeps the database valid when the
      new rows satisfy that table's invariant. */
  twostate lemma RatingsReplaced(db: Db)
    requires old(db.Valid())
    requires unchanged(db`trainers, db`slots, db`appointments, db`notifications, db`featuredItems)
    requires unchanged(db`services, db`trainerServices, db`gyms, db`gymFeatures)
    requires unchanged(db`nextSlotId, db`nextAppointmentId, db`nextNotificationId, db`nextFeaturedId)
    requires unchanged(db`nextServiceId, db`nextGymId, db`nextFeatureId)
    requires RatingsOk(db.ratings, db.nextRatingId)
    ensures db.Valid()
  {
  }

  /** Rewriting the feature catalogue alone keeps the database valid when
      its ids stay below the next one and every gym's features are still in it. */
  twostate lemma FeaturesReplaced(db: Db)
    requires old(db.Valid())
    requires unchanged(db`trainers, db`slots, db`appointments, db`notifications, db`ratings)
    requires unchanged(db`services, db`trainerServices, db`featuredItems, db`gyms)
    requires unchanged(db`nextSlotId, db`nextAppointmentId, db`nextNotificationId, db`nextRatingId)
    requires unchanged(db`nextServiceId, db`nextFeaturedId, db`nextGymId)
    requires KeysBelow(db.gymFeatures, FeatureKey, db.nextFeatureId)
    requires GymFeaturesExist(db.gyms, db.gymFeatures)
    ensures db.Valid()
  {
  }

  /** The trainer record a signed-in user owns (FirstOrDefault on ApplicationUserId). */
  function TrainerOfUser(trainers: seq<Trainer>, userId: string): (r: Option<Trainer>)
    ensures r.Some? ==> r.value in trainers && r.value.applicationUserId == Some(userId)
    ensures r.None? ==> forall t :: t in trainers ==> t.applicationUserId != Some(userId)
  {
    if trainers == [] then None
    else if trainers[0].applicationUserId == Some(userId) then Some(trainers[0])
    else TrainerOfUser(trainers[1..], userId)
  }

  predicate HasTrainer(trainers: seq<Trainer>, id: int)
  {
    exists i :: 0 <= i < |trainers| && trainers[i].id == id
  }

  /** The slot row with that id (Find / FirstOrDefault on the key). */
  function SlotById(slots: seq<ScheduleSlot>, id: int): (r: Option<ScheduleSlot>)
    ensures r.Some? ==> r.value in slots && r.value.id == id
    ensures r.None? <==> forall i :: 0 <= i < |slots| ==> slots[i].id != id
  {
    var k := IndexOfKey(slots, SlotKey, id);
    if k < 0 then None else Some(slots[k])
  }

  /** The trainer row with that id. */
  function TrainerById(trainers: seq<Trainer>, id: int): (r: Option<Trainer>)
    ensures r.Some? ==> r.value in trainers && r.value.id == id
    ensures r.None? <==> !HasTrainer(trainers, id)
  {
    if trainers == [] then None
    else if trainers[0].id == id then Some(trainers[0])
    else
      var r := TrainerById(trainers[1..], id);
      assert r.None? ==> forall i :: 1 <= i < |trainers| ==> trainers[i].id != id by {
        if r.None? {
          forall i | 1 <= i < |trainers| ensures trainers[i].id != id {
            assert trainers[1..][i - 1] == trainers[i];
          }
        }
      }
      assert r.Some? ==> HasTrainer(trainers, id) by {
        if r.Some? {
          var i :| 0 <= i < |trainers[1..]| && trainers[1..][i] == r.value;
          assert trainers[i + 1].id == id;
        }
      }
      r
  }
}
