/** The service catalogue pages: creating, renaming and deleting a service,
    the services a trainer does not offer yet, and linking a service to a
    trainer at a price. */
module ServiceController {
  import opened Common
  import opened Seqs
  import opened Entities
  import opened Store
  import opened Links
  import opened Text

  datatype ServiceError =
    | NotFound        // no such trainer or service
    | BlankName       // a null, empty or white-space name
    | AlreadyLinked   // the trainer already offers the service

  predicate HasService(services: seq<Service>, id: int)
  {
    exists i :: 0 <= i < |services| && services[i].id == id
  }

  function NotAmong(ids: set<int>): Service -> bool
  {
    (s: Service) => s.id !in ids
  }

  /** GetAvailableServices: the catalogue, in table order, without the
      services the trainer already offers. */
  function AvailableServices(trainers: seq<Trainer>, services: seq<Service>, links: seq<TrainerService>,
                             trainerId: int)
    : (r: Result<seq<Service>, ServiceError>)
    ensures r.Err? <==> !HasTrainer(trainers, trainerId)
    ensures r.Err? ==> r.error == NotFound
    ensures r.Ok? ==> forall s :: s in r.value <==> s in services && !Linked(links, trainerId, s.id)
    ensures r.Ok? ==> |r.value| <= |services|
  {
    if !HasTrainer(trainers, trainerId) then Err(NotFound)
    else
      var linked := ServicesOf(links, trainerId);
      FilterMembers(services, NotAmong(linked));
      Ok(Filter(services, NotAmong(linked)))
  }

  /** AddServiceToTrainer: links an existing service to an existing trainer
      at the given price, unless the link is already there. */
  method AddServiceToTrainer(db: Db, trainerId: int, serviceId: int, price: real)
    returns (r: Result<(), ServiceError>)
    requires db.Valid()
    modifies db`trainerServices
    ensures db.Valid()
    ensures r == Err(NotFound) <==> !HasTrainer(db.trainers, trainerId) || !HasService(db.services, serviceId)
    ensures r == Err(AlreadyLinked) <==>
      HasTrainer(db.trainers, trainerId) && HasService(db.services, serviceId)
      && Linked(old(db.trainerServices), trainerId, serviceId)
    ensures r.Ok? <==>
      HasTrainer(db.trainers, trainerId) && HasService(db.services, serviceId)
      && !Linked(old(db.trainerServices), trainerId, serviceId)
    ensures r.Ok? ==> db.trainerServices == old(db.trainerServices) + [TrainerService(trainerId, serviceId, price)]
    ensures r.Err? ==> db.trainerServices == old(db.trainerServices)
  {
    if !HasTrainer(db.trainers, trainerId) || !HasService(db.services, serviceId) {
      return Err(NotFound);
    }
    if LinkIndex(db.trainerServices, trainerId, serviceId) >= 0 {
      return Err(AlreadyLinked);
    }
    WithLinkSpec(db.trainerServices, trainerId, serviceId, price);
    db.trainerServices := db.trainerServices + [TrainerService(trainerId, serviceId, price)];
    r := Ok(());
  }

  /** Create (POST): adds a service with the given name. */
  method CreateService(db: Db, name: Option<string>) returns (r: Result<int, ServiceError>)
    requires db.Valid()
    modifies db`services, db`nextServiceId
    ensures db.Valid()
    ensures r.Err? <==> IsNullOrWhiteSpace(name)
    ensures r.Err? ==> r.error == BlankName && db.services == old(db.services)
                       && db.nextServiceId == old(db.nextServiceId)
    ensures r.Ok? ==> name.Some? && r.value == old(db.nextServiceId)
                      && db.nextServiceId == old(db.nextServiceId) + 1
                      && db.services == old(db.services) + [Service(r.value, name.value)]
  {
    if IsNullOrWhiteSpace(name) {
      return Err(BlankName);
    }
    var id := db.nextServiceId;
    var s := Service(id, name.value);
    KeysBelowAppend(db.services, ServiceKey, id, s);
    db.services := db.services + [s];
    db.nextServiceId := id + 1;
    r := Ok(id);
  }

  /** Edit (POST): renames an existing service. */
  method EditService(db: Db, id: int, name: Option<string>) returns (r: Result<int, ServiceError>)
    requires db.Valid()
    modifies db`services
    ensures db.Valid()
    ensures var k := IndexOfKey(old(db.services), ServiceKey, id);
      && (r == Err(NotFound) <==> k < 0)
      && (r == Err(BlankName) <==> k >= 0 && IsNullOrWhiteSpace(name))
      && (r.Ok? <==> k >= 0 && !IsNullOrWhiteSpace(name))
      && (r.Ok? ==> k >= 0 && name.Some? && r.value == id
                    && db.services == old(db.services)[k := Service(id, name.value)])
    ensures r.Err? ==> db.services == old(db.services)
  {
    var k := IndexOfKey(db.services, ServiceKey, id);
    if k < 0 {
      return Err(NotFound);
    }
    if IsNullOrWhiteSpace(name) {
      return Err(BlankName);
    }
    var s := db.services;
    db.services := s[k := Service(id, name.value)];
    assert forall i :: 0 <= i < |s| ==> ServiceKey(db.services[i]) == ServiceKey(s[i]);
    r := Ok(id);
  }

  /** Delete (POST): removes exactly the service with that id. */
  method DeleteService(db: Db, id: int) returns (r: Result<int, ServiceError>)
    requires db.Valid()
    modifies db`services
    ensures db.Valid()
    ensures var k := IndexOfKey(old(db.services), ServiceKey, id);
      && (r.Err? <==> k < 0)
      && (r.Err? ==> r.error == NotFound && db.services == old(db.services))
      && (r.Ok? ==> db.services == old(db.services)[..k] + old(db.services)[k + 1..])
    ensures !HasService(db.services, id)
  {
    var k := IndexOfKey(db.services, ServiceKey, id);
    if k < 0 {
      return Err(NotFound);
    }
    var s := db.services;
    KeysBelowRemove(s, ServiceKey, db.nextServiceId, k);
    db.services := s[..k] + s[k + 1..];
    forall i | 0 <= i < |db.services| ensures db.services[i].id != id {
      var i' := if i < k then i else i + 1;
      assert db.services[i] == s[i'] && ServiceKey(s[i']) != ServiceKey(s[k]);
    }
    r := Ok(id);
  }

  /** Once linked, a service is no longer offered as available to that trainer. */
  lemma LinkedNotAvailable(trainers: seq<Trainer>, services: seq<Service>, links: seq<TrainerService>,
                           trainerId: int, serviceId: int, price: real)
    requires HasTrainer(trainers, trainerId)
    ensures var r := AvailableServices(trainers, services, WithLink(links, trainerId, serviceId, price), trainerId);
            forall s :: s in r.value ==> s.id != serviceId
  {
    var l := WithLink(links, trainerId, serviceId, price);
    if !Linked(links, trainerId, serviceId) {
      assert IsLink(l[|links|], trainerId, serviceId);
    }
  }

  /** After the trainer drops a link, the service is offered again. */
  lemma UnlinkedAvailable(trainers: seq<Trainer>, services: seq<Service>, links: seq<TrainerService>,
                          trainerId: int, s: Service)
    requires HasTrainer(trainers, trainerId) && s in services && LinksUnique(links)
    ensures s in AvailableServices(trainers, services, WithoutLink(links, trainerId, s.id), trainerId).value
  {
    WithoutLinkSpec(links, trainerId, s.id);
  }
}
