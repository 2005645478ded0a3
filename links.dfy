/** The trainer-service link table, keyed by (TrainerId, ServiceId): lookup,
    insertion of a missing link and removal of a link. */
module Links {
  import opened Seqs
  import opened Entities
  import opened Store

  predicate IsLink(l: TrainerService, trainerId: int, serviceId: int)
  {
    l.trainerId == trainerId && l.serviceId == serviceId
  }

  predicate Linked(s: seq<TrainerService>, trainerId: int, serviceId: int)
  {
    exists i :: 0 <= i < |s| && IsLink(s[i], trainerId, serviceId)
  }

  /** Position of the (trainerId, serviceId) link, or -1 (FirstOrDefault on both columns). */
  function LinkIndex(s: seq<TrainerService>, trainerId: int, serviceId: int): (r: int)
    ensures -1 <= r < |s|
    ensures r >= 0 ==> IsLink(s[r], trainerId, serviceId)
    ensures r < 0 <==> !Linked(s, trainerId, serviceId)
  {
    if s == [] then -1
    else if IsLink(s[0], trainerId, serviceId) then 0
    else
      var r := LinkIndex(s[1..], trainerId, serviceId);
      assert Linked(s, trainerId, serviceId) ==> Linked(s[1..], trainerId, serviceId) by {
        if Linked(s, trainerId, serviceId) {
          var i :| 0 <= i < |s| && IsLink(s[i], trainerId, serviceId);
          assert s[1..][i - 1] == s[i];
        }
      }
      if r < 0 then -1 else r + 1
  }

  /** The table after adding the link unless it is already there. */
  function WithLink(s: seq<TrainerService>, trainerId: int, serviceId: int, price: real): (r: seq<TrainerService>)
    ensures Linked(r, trainerId, serviceId)
    ensures forall l :: l in s ==> l in r
    ensures forall l :: l in r && l !in s ==> l == TrainerService(trainerId, serviceId, price)
    ensures |r| == |s| + (if Linked(s, trainerId, serviceId) then 0 else 1)
  {
    if Linked(s, trainerId, serviceId) then s
    else
      var r := s + [TrainerService(trainerId, serviceId, price)];
      assert IsLink(r[|s|], trainerId, serviceId);
      r
  }

  function NotLink(trainerId: int, serviceId: int): TrainerService -> bool
  {
    (l: TrainerService) => !IsLink(l, trainerId, serviceId)
  }

  /** The table without the (trainerId, serviceId) link. */
  function WithoutLink(s: seq<TrainerService>, trainerId: int, serviceId: int): (r: seq<TrainerService>)
    ensures forall l :: l in r <==> l in s && !IsLink(l, trainerId, serviceId)
    ensures !Linked(r, trainerId, serviceId)
  {
    FilterMembers(s, NotLink(trainerId, serviceId));
    var r := Filter(s, NotLink(trainerId, serviceId));
    r
  }

  /** The ids of the services linked to a trainer. */
  function ServicesOf(s: seq<TrainerService>, trainerId: int): (r: set<int>)
    ensures forall id :: id in r <==> Linked(s, trainerId, id)
  {
    set i | 0 <= i < |s| && s[i].trainerId == trainerId :: s[i].serviceId
  }

  /** Adding keeps every link, makes the new one present and keeps the key unique. */
  lemma WithLinkSpec(s: seq<TrainerService>, trainerId: int, serviceId: int, price: real)
    requires LinksUnique(s)
    ensures var r := WithLink(s, trainerId, serviceId, price);
      && LinksUnique(r)
      && Linked(r, trainerId, serviceId)
      && (forall l :: l in s ==> l in r)
      && (forall l :: l in r && l !in s ==> l == TrainerService(trainerId, serviceId, price))
      && |r| == |s| + (if Linked(s, trainerId, serviceId) then 0 else 1)
  {
    var r := WithLink(s, trainerId, serviceId, price);
    assert IsLink(r[|r| - 1], trainerId, serviceId) || Linked(s, trainerId, serviceId);
  }

  /** Repeated adds leave a single link. */
  lemma WithLinkIdempotent(s: seq<TrainerService>, trainerId: int, serviceId: int, price: real, price': real)
    ensures WithLink(WithLink(s, trainerId, serviceId, price), trainerId, serviceId, price')
         == WithLink(s, trainerId, serviceId, price)
  {
    var r := WithLink(s, trainerId, serviceId, price);
    assert IsLink(r[|r| - 1], trainerId, serviceId) || Linked(s, trainerId, serviceId);
  }

  /** Removal drops exactly the matching link and keeps the key unique. */
  lemma {:induction false} WithoutLinkSpec(s: seq<TrainerService>, trainerId: int, serviceId: int)
    requires LinksUnique(s)
    ensures var r := WithoutLink(s, trainerId, serviceId);
      && LinksUnique(r)
      && !Linked(r, trainerId, serviceId)
      && (forall l :: l in r <==> l in s && !IsLink(l, trainerId, serviceId))
      && |r| == |s| - (if Linked(s, trainerId, serviceId) then 1 else 0)
  {
    var k := LinkIndex(s, trainerId, serviceId);
    FilterMembers(s, NotLink(trainerId, serviceId));
    if k >= 0 {
      WithoutLinkAt(s, trainerId, serviceId, k);
      RemoveKeepsUnique(s, k);
    } else {
      WithoutAbsentLink(s, trainerId, serviceId);
    }
  }

  /** With the key unique, removing the link is cutting out its one row. */
  lemma WithoutLinkAt(s: seq<TrainerService>, trainerId: int, serviceId: int, k: nat)
    requires LinksUnique(s) && k < |s| && IsLink(s[k], trainerId, serviceId)
    ensures WithoutLink(s, trainerId, serviceId) == s[..k] + s[k + 1..]
  {
    forall i | 0 <= i < |s| ensures NotLink(trainerId, serviceId)(s[i]) <==> i != k {
    }
    FilterDropsOne(s, NotLink(trainerId, serviceId), k);
  }

  /** Removing a link that is not there changes nothing. */
  lemma WithoutAbsentLink(s: seq<TrainerService>, trainerId: int, serviceId: int)
    requires !Linked(s, trainerId, serviceId)
    ensures WithoutLink(s, trainerId, serviceId) == s
  {
    FilterAll(s, NotLink(trainerId, serviceId));
  }

  lemma RemoveKeepsUnique(s: seq<TrainerService>, k: nat)
    requires LinksUnique(s) && k < |s|
    ensures LinksUnique(s[..k] + s[k + 1..])
  {
    var r := s[..k] + s[k + 1..];
    forall i, j | 0 <= i < j < |r| ensures r[i].trainerId != r[j].trainerId || r[i].serviceId != r[j].serviceId {
      var i' := if i < k then i else i + 1;
      var j' := if j < k then j else j + 1;
      assert r[i] == s[i'] && r[j] == s[j'];
    }
  }

  /** Removing what was just added restores the table, when the link was new. */
  lemma RemoveAfterAdd(s: seq<TrainerService>, trainerId: int, serviceId: int, price: real)
    requires !Linked(s, trainerId, serviceId)
    ensures WithoutLink(WithLink(s, trainerId, serviceId, price), trainerId, serviceId) == s
  {
    FilterAppend(s, [TrainerService(trainerId, serviceId, price)], NotLink(trainerId, serviceId));
    WithoutAbsentLink(s, trainerId, serviceId);
  }
}
