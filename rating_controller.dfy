/** The rating API: the user of an appointment scores its trainer and gym,
    once, with both scores clamped into 1..5. */
module RatingController {
  import opened Common
  import opened Seqs
  import opened Appointments
  import opened Entities
  import opened Store

  datatype RatingError =
    | Unauthorized   // nobody signed in
    | NotFound       // no appointment with that id
    | Forbidden      // the appointment is another user's
    | AlreadyRated   // this user has already rated this appointment

  const MinScore: int := 1
  const MaxScore: int := 5

  /** Math.Clamp(v, lo, hi). */
  function Clamp(v: int, lo: int, hi: int): (r: int)
    requires lo <= hi
    ensures lo <= r <= hi
    ensures lo <= v <= hi ==> r == v
    ensures v < lo ==> r == lo
    ensures v > hi ==> r == hi
  {
    if v < lo then lo else if v > hi then hi else v
  }

  /** Clamping is a projection onto the range: a second clamp changes nothing. */
  lemma ClampIdempotent(v: int, lo: int, hi: int)
    requires lo <= hi
    ensures Clamp(Clamp(v, lo, hi), lo, hi) == Clamp(v, lo, hi)
  {
  }

  /** Clamping keeps the order of scores. */
  lemma ClampMonotone(v: int, w: int, lo: int, hi: int)
    requires lo <= hi && v <= w
    ensures Clamp(v, lo, hi) <= Clamp(w, lo, hi)
  {
  }

  /** AnyAsync(r => r.AppointmentId == appointmentId && r.UserId == userId). */
  predicate HasRated(ratings: seq<Rating>, appointmentId: int, userId: string)
  {
    exists i :: 0 <= i < |ratings| && ratings[i].appointmentId == appointmentId && ratings[i].userId == Some(userId)
  }

  /** CreateRating. The appointment's status is not consulted: any
      appointment of the caller can be rated, finished or not. */
  method CreateRating(db: Db, user: Option<string>, appointmentId: int, trainerRating: int, gymRating: int,
                      now: Ticks)
    returns (r: Result<int, RatingError>)
    requires db.Valid()
    modifies db`ratings, db`nextRatingId
    ensures db.Valid()
    ensures var k := IndexOfKey(db.appointments, AppointmentKey, appointmentId);
      && (r == Err(Unauthorized) <==> user.None?)
      && (r == Err(NotFound) <==> user.Some? && k < 0)
      && (r == Err(Forbidden) <==> user.Some? && k >= 0 && db.appointments[k].userId != user.value)
      && (r == Err(AlreadyRated) <==>
            user.Some? && k >= 0 && db.appointments[k].userId == user.value
            && HasRated(old(db.ratings), appointmentId, user.value))
      && (r.Ok? ==>
            && user.Some?
            && r.value == old(db.nextRatingId)
            && db.nextRatingId == old(db.nextRatingId) + 1
            && db.ratings == old(db.ratings) +
                 [Rating(r.value, appointmentId, Clamp(trainerRating, MinScore, MaxScore),
                         Clamp(gymRating, MinScore, MaxScore), user, now)])
    ensures r.Err? ==> db.ratings == old(db.ratings) && db.nextRatingId == old(db.nextRatingId)
  {
    if user.None? {
      return Err(Unauthorized);
    }
    var k := IndexOfKey(db.appointments, AppointmentKey, appointmentId);
    if k < 0 {
      return Err(NotFound);
    }
    if db.appointments[k].userId != user.value {
      return Err(Forbidden);
    }
    if HasRated(db.ratings, appointmentId, user.value) {
      return Err(AlreadyRated);
    }
    var id := db.nextRatingId;
    var rating := Rating(id, appointmentId, Clamp(trainerRating, MinScore, MaxScore),
                         Clamp(gymRating, MinScore, MaxScore), user, now);
    AddRatingKeepsRatingsOk(db.ratings, id, rating);
    db.ratings := db.ratings + [rating];
    db.nextRatingId := id + 1;
    RatingsReplaced(db);
    r := Ok(id);
  }

  /** A clamped rating for a pair not yet rated keeps ids fresh, scores in
      range and (appointment, user) unique. */
  lemma AddRatingKeepsRatingsOk(s: seq<Rating>, next: int, x: Rating)
    requires RatingsOk(s, next) && x.id == next && RatingInRange(x)
    requires x.userId.Some? && !HasRated(s, x.appointmentId, x.userId.value)
    ensures RatingsOk(s + [x], next + 1)
  {
    KeysBelowAppend(s, RatingKey, next, x);
    var t := s + [x];
    forall i, j | 0 <= i < j < |t| ensures t[i].appointmentId != t[j].appointmentId || t[i].userId != t[j].userId {
      if j == |s| {
        assert t[i] == s[i];
      }
    }
  }

  /** Once a user has rated an appointment, every later attempt is refused:
      the stored table already answers HasRated. */
  lemma RatedAfterAdd(s: seq<Rating>, x: Rating, userId: string)
    requires x.userId == Some(userId)
    ensures HasRated(s + [x], x.appointmentId, userId)
  {
    assert (s + [x])[|s|] == x;
  }
}
