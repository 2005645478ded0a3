/** The admin "featured" page: the listing of active featured items in their
    display order, and the rebuild that replaces them by a new selection of
    at most four trainers and gyms. */
module AdminController {
  import opened Common
  import opened Seqs
  import opened Entities
  import opened Store

  /** One entry of the combined selection: a trainer or a gym. */
  datatype Pick = Pick(trainerId: Option<int>, gymId: Option<int>)

  /** How many featured items the page keeps. */
  const MaxFeatured: nat := 4

  /** A missing form array counts as an empty one. */
  function OrEmpty(ids: Option<seq<int>>): (r: seq<int>)
    ensures ids.None? ==> r == []
    ensures ids.Some? ==> r == ids.value
  {
    if ids.Some? then ids.value else []
  }

  /** The trainers in input order, then the gyms in input order. */
  function Combined(trainerIds: seq<int>, gymIds: seq<int>): (r: seq<Pick>)
    ensures |r| == |trainerIds| + |gymIds|
    ensures forall i :: 0 <= i < |trainerIds| ==> r[i] == Pick(Some(trainerIds[i]), None)
    ensures forall i :: 0 <= i < |gymIds| ==> r[|trainerIds| + i] == Pick(None, Some(gymIds[i]))
  {
    seq(|trainerIds|, i requires 0 <= i < |trainerIds| => Pick(Some(trainerIds[i]), None))
    + seq(|gymIds|, i requires 0 <= i < |gymIds| => Pick(None, Some(gymIds[i])))
  }

  /** Take(4) of the combined list. */
  function Selection(trainerIds: seq<int>, gymIds: seq<int>): (r: seq<Pick>)
    ensures |r| == if |trainerIds| + |gymIds| < MaxFeatured then |trainerIds| + |gymIds| else MaxFeatured
    ensures forall i :: 0 <= i < |r| ==> r[i] == Combined(trainerIds, gymIds)[i]
  {
    var c := Combined(trainerIds, gymIds);
    if |c| <= MaxFeatured then c else c[..MaxFeatured]
  }

  /** The rows the rebuild writes: ids from firstId on, orders 1..n, all active. */
  function FeaturedRows(picks: seq<Pick>, firstId: int): (r: seq<FeaturedItem>)
    ensures |r| == |picks|
    ensures forall i :: 0 <= i < |r| ==>
      && r[i].id == firstId + i
      && r[i].order == i + 1
      && r[i].isActive
      && r[i].trainerId == picks[i].trainerId && r[i].gymId == picks[i].gymId
  {
    seq(|picks|, i requires 0 <= i < |picks| =>
      FeaturedItem(firstId + i, picks[i].trainerId, picks[i].gymId, i + 1, true))
  }

  /** The list building of Featured (POST): trainers, then gyms, then Take(4). */
  method CombineSelection(trainerIds: seq<int>, gymIds: seq<int>) returns (combined: seq<Pick>)
    ensures combined == Selection(trainerIds, gymIds)
  {
    combined := [];
    for i := 0 to |trainerIds|
      invariant |combined| == i
      invariant forall k :: 0 <= k < i ==> combined[k] == Pick(Some(trainerIds[k]), None)
    {
      combined := combined + [Pick(Some(trainerIds[i]), None)];
    }
    for i := 0 to |gymIds|
      invariant |combined| == |trainerIds| + i
      invariant forall k :: 0 <= k < |trainerIds| ==> combined[k] == Pick(Some(trainerIds[k]), None)
      invariant forall k :: 0 <= k < i ==> combined[|trainerIds| + k] == Pick(None, Some(gymIds[k]))
    {
      combined := combined + [Pick(None, Some(gymIds[i]))];
    }
    assert combined == Combined(trainerIds, gymIds);
    if |combined| > MaxFeatured {
      combined := combined[..MaxFeatured];
    }
  }

  /** Featured (POST): clears every featured item and writes the new selection. */
  method SaveFeatured(db: Db, selectedTrainerIds: Option<seq<int>>, selectedGymIds: Option<seq<int>>)
    requires db.Valid()
    modifies db`featuredItems, db`nextFeaturedId
    ensures db.Valid()
    ensures var picks := Selection(OrEmpty(selectedTrainerIds), OrEmpty(selectedGymIds));
      && db.featuredItems == FeaturedRows(picks, old(db.nextFeaturedId))
      && db.nextFeaturedId == old(db.nextFeaturedId) + |picks|
  {
    var combined := CombineSelection(OrEmpty(selectedTrainerIds), OrEmpty(selectedGymIds));
    db.featuredItems := [];
    WriteFeatured(db, combined);
    SelectedRowsOk(OrEmpty(selectedTrainerIds), OrEmpty(selectedGymIds), old(db.nextFeaturedId));
    FeaturedReplaced(db);
  }

  /** The foreach of Featured (POST) over the cleared table: one active row
      per pick, numbered from the next id, with Order 1, 2, ... */
  method WriteFeatured(db: Db, picks: seq<Pick>)
    requires db.featuredItems == []
    modifies db`featuredItems, db`nextFeaturedId
    ensures db.featuredItems == FeaturedRows(picks, old(db.nextFeaturedId))
    ensures db.nextFeaturedId == old(db.nextFeaturedId) + |picks|
  {
    ghost var firstId := db.nextFeaturedId;
    var order := 1;
    for i := 0 to |picks|
      invariant order == i + 1
      invariant db.nextFeaturedId == firstId + i
      invariant db.featuredItems == FeaturedRows(picks[..i], firstId)
    {
      var item := FeaturedItem(db.nextFeaturedId, picks[i].trainerId, picks[i].gymId, order, true);
      FeaturedRowsSnoc(picks, i, firstId);
      db.featuredItems := db.featuredItems + [item];
      db.nextFeaturedId := db.nextFeaturedId + 1;
      order := order + 1;
    }
    assert picks[..|picks|] == picks;
  }

  lemma FeaturedRowsSnoc(picks: seq<Pick>, i: nat, firstId: int)
    requires i < |picks|
    ensures FeaturedRows(picks[..i + 1], firstId)
         == FeaturedRows(picks[..i], firstId) + [FeaturedItem(firstId + i, picks[i].trainerId, picks[i].gymId, i + 1, true)]
  {
  }

  /** The rows written satisfy the table's invariant: fresh distinct ids and
      each row pointing at exactly one trainer or gym. */
  lemma FeaturedRowsOk(picks: seq<Pick>, firstId: int)
    requires forall i :: 0 <= i < |picks| ==> picks[i].trainerId.Some? != picks[i].gymId.Some?
    ensures FeaturedOk(FeaturedRows(picks, firstId), firstId + |picks|)
  {
  }

  /** The rows a rebuild writes satisfy the table's invariant. */
  lemma SelectedRowsOk(trainerIds: seq<int>, gymIds: seq<int>, firstId: int)
    ensures var picks := Selection(trainerIds, gymIds);
      FeaturedOk(FeaturedRows(picks, firstId), firstId + |picks|)
  {
    SelectionTargets(trainerIds, gymIds);
    FeaturedRowsOk(Selection(trainerIds, gymIds), firstId);
  }

  /** Every pick of the combined list names exactly one trainer or one gym. */
  lemma SelectionTargets(trainerIds: seq<int>, gymIds: seq<int>)
    ensures var r := Selection(trainerIds, gymIds);
      forall i :: 0 <= i < |r| ==> r[i].trainerId.Some? != r[i].gymId.Some?
  {
    var r := Selection(trainerIds, gymIds);
    forall i | 0 <= i < |r| ensures r[i].trainerId.Some? != r[i].gymId.Some? {
      if i >= |trainerIds| {
        assert r[i] == Combined(trainerIds, gymIds)[|trainerIds| + (i - |trainerIds|)];
      }
    }
  }

  predicate IsActiveItem(f: FeaturedItem) { f.isActive }

  function ActiveOnly(): FeaturedItem -> bool
  {
    (f: FeaturedItem) => IsActiveItem(f)
  }

  function ItemOrder(f: FeaturedItem): int { f.order }

  /** Featured (GET): the active items, by ascending Order. */
  function FeaturedListing(items: seq<FeaturedItem>): (r: seq<FeaturedItem>)
    ensures forall f :: f in r <==> f in items && f.isActive
    ensures forall i, j :: 0 <= i < j < |r| ==> r[i].order <= r[j].order
    ensures multiset(r) == multiset(Filter(items, ActiveOnly()))
  {
    var active := Filter(items, ActiveOnly());
    FilterMembers(items, ActiveOnly());
    SortByMembers(active, ItemOrder);
    SortBy(active, ItemOrder)
  }

  /** Right after a rebuild the listing shows exactly the new items in the
      order they were picked. */
  lemma ListingAfterRebuild(trainerIds: seq<int>, gymIds: seq<int>, firstId: int)
    ensures var rows := FeaturedRows(Selection(trainerIds, gymIds), firstId);
            FeaturedListing(rows) == rows
  {
    var rows := FeaturedRows(Selection(trainerIds, gymIds), firstId);
    FilterAll(rows, ActiveOnly());
    SortBySorted(rows, ItemOrder);
  }
}
