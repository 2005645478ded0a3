/** The remaining rows of the database, one datatype per table, with the
    primary-key projections the tables are indexed by. */
module Entities {
  import opened Common

  datatype Trainer = Trainer(id: int, name: string, gymId: int, applicationUserId: Option<string>)

  /** A weekly schedule slot. `hour` is the column booking reads; `startTime`,
      `endTime` and `capacity` are the ones the schedule pages write. */
  datatype ScheduleSlot = ScheduleSlot(
    id: int,
    trainerId: int,
    dayOfWeek: int,
    hour: int,
    startTime: TimeOfDay,
    endTime: TimeOfDay,
    capacity: int,
    createdAt: Ticks,
    updatedAt: Ticks)

  datatype Notification = Notification(
    id: int,
    userId: string,
    subject: string,
    description: string,
    isRead: bool,
    createdAt: Ticks,
    actionType: Option<string>,
    actionPayload: Option<string>,
    actionLabel: Option<string>)

  datatype Rating = Rating(
    id: int,
    appointmentId: int,
    trainerRating: int,
    gymRating: int,
    userId: Option<string>,
    createdAt: Ticks)

  datatype Service = Service(id: int, name: string)

  /** A trainer-service link; (trainerId, serviceId) is the table's key. */
  datatype TrainerService = TrainerService(trainerId: int, serviceId: int, price: real)

  datatype FeaturedItem = FeaturedItem(
    id: int,
    trainerId: Option<int>,
    gymId: Option<int>,
    order: int,
    isActive: bool)

  /** A gym; `features` lists the ids of the catalogue entries linked to it. */
  datatype Gym = Gym(
    id: int,
    name: string,
    address: string,
    monthlyPrice: int,
    annuallyPrice: int,
    features: seq<int>)

  const DefaultIconClass := "fas fa-check-circle"

  datatype GymFeature = GymFeature(id: int, name: string, iconClass: string)

  /** The catalogue a new database starts with: features 1 to 6. */
  const SeedFeatures: seq<GymFeature> := [
    GymFeature(1, "Profesyonel Ekipmanlar", "fas fa-dumbbell"),
    GymFeature(2, "Duş ve Soyunma", "fas fa-shower"),
    GymFeature(3, "Ücretsiz Wi-Fi", "fas fa-wifi"),
    GymFeature(4, "Sauna", "fas fa-hot-tub"),
    GymFeature(5, "Otopark", "fas fa-parking"),
    GymFeature(6, "Kafeterya", "fas fa-coffee")
  ]

  function TrainerKey(t: Trainer): int { t.id }
  function SlotKey(s: ScheduleSlot): int { s.id }
  function NotificationKey(n: Notification): int { n.id }
  function RatingKey(r: Rating): int { r.id }
  function ServiceKey(s: Service): int { s.id }
  function FeaturedKey(f: FeaturedItem): int { f.id }
  function GymKey(g: Gym): int { g.id }
  function FeatureKey(f: GymFeature): int { f.id }
}
