# PowerUp booking core, modelled in Dafny

PowerUp is an ASP.NET Core gym site. Members book a trainer's weekly
schedule slot on a date. Trainers keep their weekly schedule and the list of
services they offer. Admins maintain the gyms, the gym feature catalogue,
the service catalogue and the "featured" trainers and gyms on the home page.
A background service closes every appointment whose date has come: an
unanswered request (Awaiting) is rejected, and an accepted one is completed.
Each closed appointment produces a notification for its user; a completed
one carries a "rate it" action. The rating API stores one clamped 1..5 score
pair per appointment and user.

The model has these parts:

- **The database.** `Store.Db` is a class with one `seq` field per table, in
  insertion order, plus the next value of every identity column.
  - `Db.Valid()` holds the table invariants: ids are distinct and below the
    next one, every (slot, date) pair is booked at most once, notes fit their
    500-character column, ratings stay in range and are unique per
    (appointment, user), the trainer-service key is unique, every featured
    row targets exactly one trainer or gym, and every gym lists only stored
    features.
- **Controller actions that change data.** These are methods over a `Db`.
  - Each `modifies` only the fields its action touches.
  - Each ensures the whole new state, the identity counters included.
  - Each states every error path together with the exact condition on the
    inputs under which it is taken, and the success path as the negation
    of them all.
- **Queries.** These are functions over the tables; LINQ's `Where` and
  `OrderBy` are `Seqs.Filter` and a stable `Seqs.SortBy`.
- **Loops.** Where the source loops, the model has a loop with its
  invariants, proved against a specification function:
  - the completion sweep;
  - the featured rebuild;
  - the two feature-collecting loops of the gym pages.
- **Time and dates.**
  - A date is a day number whose day 0 is 1 January of year 1, as in .NET's
    `DateTime`.
  - Instants are ticks.
  - `DayOfWeek` follows .NET: Sunday is 0.
- **Calls the model cannot see are parameters:**
  - the clock (`today`, `now`);
  - `TimeOnly.TryParse` (`parseTime`);
  - `string.ToLower` (`lower`);
  - the `dd/MM/yyyy` date format (`formatDate`);
  - `ModelState.IsValid` (`modelValid`).

The model follows the code in three places where the entity classes say otherwise:

- Booking reads a slot's `Hour` (Controllers/TrainerController.cs:97). Models/ScheduleSlot.cs has no such column.
  - The model gives slots an `hour` field.
  - Schedule creation leaves it at 0, as the code does.
- The service pages set a link's `Price` (Controllers/ServiceController.cs:158-166). Models/TrainerService.cs has no such field.
  - The model's links carry a `price`.
  - `TrainerController.AddService` leaves it at the default 0.
- Models/ScheduleSlot.cs:17 documents day 0 as Monday. Booking compares the slot's day with .NET's `DayOfWeek`, where 0 is Sunday.
  - The model compares as the code does (Sunday = 0).

## Model

| member | source | states |
|---|---|---|
| Appointments.NewAppointment | Models/Appointment.cs:31-36 | a new appointment is Awaiting, was never updated or completed, and keeps the id, user, slot and date it was made with |
| Appointments.AppendFreeSlotDate | Controllers/TrainerController.cs:75-102 | adding a booking for a (slot, date) pair nobody holds keeps every pair booked at most once |
| Appointments.SlotDateTaken | Controllers/TrainerController.cs:75-78 | some stored appointment books that slot on that date, whatever its status (a predicate, defined by this condition) |
| Common.DayOfWeek | Controllers/TrainerController.cs:68 | the weekday of a date is in 0..6 and repeats every seven days |
| Common.IntToString | Services/AppointmentCompletionService.cs:60 | the decimal text of an id is non-empty, starts with a minus sign exactly when the id is negative, and is otherwise all digits |
| Common.IntToStringRoundTrip | Services/AppointmentCompletionService.cs:60 | the decimal text an appointment id is stored as in a notification reads back as that same id |
| Common.NatToStringRoundTrip | Services/AppointmentCompletionService.cs:60 | the digits printed for a natural number are all digits and read back as that number |
| Seqs.Filter | Services/NotificationService.cs:33-34 | `Where` keeps only elements satisfying the predicate and never lengthens the list |
| Seqs.FilterMembers | Services/NotificationService.cs:33-34 | an element is in the result of `Where` exactly when it is in the input and satisfies the predicate |
| Seqs.FilterAppend | Controllers/TrainerController.cs:274-281 | `Where` distributes over concatenation |
| Seqs.FilterAll | Services/NotificationService.cs:58-66 | `Where` with a predicate that every element satisfies returns its input |
| Seqs.FilterDropsOne | Services/NotificationService.cs:58-66 | `Where` with a predicate that fails at exactly one position cuts out exactly that element |
| Seqs.SortBy | Services/NotificationService.cs:35 | `OrderBy` returns a permutation of its input that is sorted by the key |
| Seqs.SortByMembers | Services/NotificationService.cs:35 | `OrderBy` keeps exactly the same elements |
| Seqs.SortBySorted | Controllers/AdminController.cs:59 | ordering a list that is already sorted by the key leaves it unchanged (the sort is stable) |
| Seqs.IndexOfKey | Services/NotificationService.cs:49 | `FindAsync` on the primary key: the position of the row with that key, or -1 exactly when no row has it |
| Seqs.KeysBelowAppend | Services/NotificationService.cs:27-28 | inserting a row that takes the next identity value keeps keys distinct and below the new next value |
| Seqs.KeysBelowRemove | Services/NotificationService.cs:63-64 | removing a row keeps keys distinct and below the next value |
| Store.AppointmentsOkUpdate | Services/AppointmentCompletionService.cs:39-53 | rewriting a row's status and timestamps, with id, slot, date and notes kept, keeps the appointments table well formed |
| Store.GymFeaturesExistAppend | Controllers/GymController.cs:77 | adding features to the catalogue keeps every gym's listed features stored |
| Store.Db.constructor | Data/ApplicationDbContext.cs:24-41 | a new database: every table empty except the feature catalogue, which holds the six seeded features with ids 1 to 6; every identity starts at 1 except the feature one, which starts at 7; the invariants hold |
| Store.SeedFeaturesNumbered | Data/ApplicationDbContext.cs:33-40 | the seeded features carry ids 1 to 6, distinct and below 7 |
| Store.TrainerOfUser | Controllers/TrainerController.cs:241-242 | the trainer record whose ApplicationUserId is the user, or none exactly when no trainer has it |
| Store.SlotById | Controllers/TrainerController.cs:62 | the slot with that id, or none exactly when no slot has it |
| Store.TrainerById | Controllers/TrainerController.cs:59-61 | the trainer with that id, or none exactly when no trainer has it |
| Store.Db.Valid | Data/ApplicationDbContext.cs:24-31 | the table invariants listed above: distinct identities below the next value, the composite (TrainerId, ServiceId) key, one booking per (slot, date), ratings in range and unique, featured rows with one target, gym features stored (a predicate, defined by these conditions) |
| Text.IsNullOrWhiteSpace | Controllers/ServiceController.cs:47 | `string.IsNullOrWhiteSpace`: null, or every character white space (a predicate; `Text.TrimEmpty` ties it to `Trim`) |
| Text.Trim | Controllers/GymController.cs:72 | the result of `Trim` starts and ends with a non-white-space character or is empty, and is no longer than its input |
| Text.TrimCut | Controllers/GymController.cs:72 | `Trim` removes only white space and only at the two ends |
| Text.TrimKeepsOut | Controllers/GymController.cs:72 | trimming introduces no character, so a trimmed piece is still free of the separator |
| Text.TrimIdempotent | Controllers/GymController.cs:72 | trimming twice is the same as trimming once |
| Text.TrimEmpty | Controllers/GymController.cs:69 | a string trims to nothing exactly when it is all white space |
| Text.Split | Controllers/GymController.cs:72 | `Split(',')` yields at least one piece and no piece contains the separator |
| Text.SplitJoin | Controllers/GymController.cs:72 | joining the pieces of a split with the separator gives back the input |
| Text.JoinSplit | Controllers/GymController.cs:72 | splitting a join of separator-free pieces gives back the pieces |
| Text.SplitTrimmedClean | Controllers/GymController.cs:72 | with RemoveEmptyEntries and TrimEntries every custom name is non-empty, trimmed and free of commas |
| Text.SplitTrimmedMembers | Controllers/GymController.cs:72 | a name is among the custom names exactly when it is non-empty and some comma-separated piece trims to it |
| Links.LinkIndex | Controllers/TrainerController.cs:247-248 | the position of the (trainer, service) link, or -1 exactly when the trainer does not offer the service |
| Links.ServicesOf | Controllers/ServiceController.cs:124-127 | the ids of the services a trainer offers, exactly |
| Links.WithLink | Controllers/TrainerController.cs:247-259 | after adding, the link is present, every old link is kept, the only new row is the one given, and the table grows by one exactly when the link was missing |
| Links.WithoutLink | Controllers/TrainerController.cs:274-281 | after removing, a link is kept exactly when it is an old one with another (TrainerId, ServiceId), so the link is absent |
| Links.WithLinkSpec | Controllers/TrainerController.cs:250-259 | adding a link keeps every old link, makes the new one present, adds a row only when it was missing, and keeps the (TrainerId, ServiceId) key unique |
| Links.WithLinkIdempotent | Controllers/TrainerController.cs:247-259 | adding the same link twice is the same as adding it once |
| Links.WithoutLinkSpec | Controllers/TrainerController.cs:274-281 | removing a link drops exactly that link, shortens the table by one only when it was there, and keeps the key unique |
| Links.WithoutLinkAt | Controllers/TrainerController.cs:279 | with the key unique, removing the link is cutting out its one row |
| Links.WithoutAbsentLink | Controllers/TrainerController.cs:277 | removing a link that is not there changes nothing |
| Links.RemoveKeepsUnique | Data/ApplicationDbContext.cs:27-28 | cutting out one row keeps the composite key unique |
| Links.RemoveAfterAdd | Controllers/TrainerController.cs:250-281 | removing a link that was just added to a table without it restores the table |
| NotificationService.CreateNotification | Services/NotificationService.cs:16-29 | one unread notification for the user is appended, stamped now, under the next id; nothing else changes |
| NotificationService.UnreadNotifications | Services/NotificationService.cs:31-37 | exactly the user's unread notifications, each as often as stored, newest first |
| NotificationService.AllNotifications | Services/NotificationService.cs:39-45 | exactly the user's notifications, each as often as stored, newest first |
| NotificationService.UnreadCount | Services/NotificationService.cs:68-73 | the unread count equals the length of the unread listing |
| NotificationService.CountIsFilterLength | Services/NotificationService.cs:70-72 | the counting walk agrees with the filtered list's length |
| NotificationService.WithoutNotification | Services/NotificationService.cs:58-66 | the table after a delete holds exactly the rows with another id |
| NotificationService.MarkedRead | Services/NotificationService.cs:47-56 | the table keeps its length and every column but IsRead; a row is read afterwards exactly when it was read before or has that id |
| NotificationService.MarkAsRead | Services/NotificationService.cs:47-56 | the row with that id becomes read and every other row is unchanged; an unknown id changes nothing |
| NotificationService.DeleteNotification | Services/NotificationService.cs:58-66 | the row with that id is removed and every other row stays, in order; an unknown id changes nothing |
| NotificationService.MarkAsReadIdempotent | Services/NotificationService.cs:47-56 | marking a notification read twice is the same as once |
| NotificationService.MarkAsReadCount | Services/NotificationService.cs:47-56 | marking read one of the user's unread notifications lowers the user's unread count by exactly one; any other id leaves it as it was |
| NotificationService.MarkedReadCount | Services/NotificationService.cs:47-56 | the same for the counting walk over the table |
| AppointmentCompletion.Finalize | Services/AppointmentCompletionService.cs:39-61 | a due Awaiting row becomes Rejected and a due Accepted row becomes Completed with CompletedAt; either way UpdatedAt is set, and no other column or row changes |
| AppointmentCompletion.SweptTable | Services/AppointmentCompletionService.cs:33-61 | the table after a pass has the same rows in the same places: a row that is not due is unchanged, a due row is no longer pending and carries UpdatedAt now, and only Status, UpdatedAt and CompletedAt ever differ |
| AppointmentCompletion.DueRows | Services/AppointmentCompletionService.cs:33-35 | every selected row is dated on or before today and still Awaiting or Accepted |
| AppointmentCompletion.DueRowsMembers | Services/AppointmentCompletionService.cs:33-35 | a row is selected exactly when it is in the table and due |
| AppointmentCompletion.Notice | Services/AppointmentCompletionService.cs:44-60 | the notice goes to the appointment's user, unread, stamped now; a rejection has no action and a completion has the "rating" action with its label and a payload |
| AppointmentCompletion.NoticePayloadNamesAppointment | Services/AppointmentCompletionService.cs:59-60 | a completion notice's payload reads back as the appointment's id |
| AppointmentCompletion.Sweep | Services/AppointmentCompletionService.cs:31-68 | one pass finalises every row as `Finalize` says, sends one notice per selected row in table order under consecutive ids, and reports how many rows it selected |
| AppointmentCompletion.FinalizeRow | Services/AppointmentCompletionService.cs:37-61 | one iteration finalises row i and sends a notice only when the row is due |
| AppointmentCompletion.SetRow | Services/AppointmentCompletionService.cs:64-67 | writing back a row with id, slot, date and notes kept replaces only that row and keeps the database valid |
| AppointmentCompletion.NothingDueNothingChanges | Services/AppointmentCompletionService.cs:64-68 | a pass that selects nothing leaves the table as it was |
| AppointmentCompletion.SweepLeavesNothingDue | Services/AppointmentCompletionService.cs:33-35 | after a pass nothing is left due for the same day |
| AppointmentCompletion.SecondSweepChangesNothing | Services/AppointmentCompletionService.cs:23-75 | a second pass on the same day rewrites no row and sends no notification |
| AppointmentCompletion.DueRowsByDate | Services/AppointmentCompletionService.cs:34 | a pending row dated today or earlier is selected; a row dated later is left alone |
| AppointmentCompletion.UnansweredBookingIsRejected | Services/AppointmentCompletionService.cs:39-42 | a booking nobody answered is rejected, not completed, once its date has come |
| AppointmentCompletion.SweepTransitions | Services/AppointmentCompletionService.cs:37-61 | the pass only moves Awaiting to Rejected and Accepted to Completed; rows in any other status are untouched |
| AppointmentController.NewestFirstKeyOrder | Controllers/AppointmentController.cs:32 | the sort key orders rows by UpdatedAt descending, with never-updated rows last |
| AppointmentController.View | Controllers/AppointmentController.cs:33-40 | the projection carries the row's id, date and UpdatedAt, plus the trainer's name and the slot's hour from the rows they point at, each present exactly when that row exists |
| AppointmentController.Views | Controllers/AppointmentController.cs:33-40 | one projected row per appointment, in order |
| AppointmentController.RejectedToday | Controllers/AppointmentController.cs:18-44 | no signed-in user is the only error |
| AppointmentController.RejectedRows | Controllers/AppointmentController.cs:26-32 | the rows are exactly the caller's appointments rejected with today's date, each as often as stored, ordered by UpdatedAt descending |
| AppointmentController.RejectedTodayMembers | Controllers/AppointmentController.cs:26-41 | every answer row projects such an appointment, and every such appointment is in the answer |
| AppointmentController.RejectedTodayOrder | Controllers/AppointmentController.cs:32 | the answer is ordered by UpdatedAt descending |
| AppointmentController.OthersNotListed | Controllers/AppointmentController.cs:27-29 | an appointment of another user, another day or another status never appears |
| AppointmentController.RejectedTodayCount | Controllers/AppointmentController.cs:26-41 | the answer has one row per matching appointment |
| RatingController.Clamp | Controllers/Api/RatingController.cs:53-54 | the score is in 1..5, equal to the input when it is in range and to the nearer bound otherwise |
| RatingController.ClampIdempotent | Controllers/Api/RatingController.cs:53-54 | clamping twice is clamping once |
| RatingController.ClampMonotone | Controllers/Api/RatingController.cs:53-54 | clamping keeps the order of scores |
| RatingController.HasRated | Controllers/Api/RatingController.cs:45 | some stored rating is by that user for that appointment (a predicate, defined by this condition) |
| RatingController.CreateRating | Controllers/Api/RatingController.cs:32-62 | each error (no user, no appointment, another user's appointment, already rated) exactly under its condition with nothing stored; otherwise one rating with both scores clamped is appended under the next id |
| RatingController.AddRatingKeepsRatingsOk | Controllers/Api/RatingController.cs:45-59 | storing a clamped rating for a pair not yet rated keeps ids fresh, scores in range and (appointment, user) unique |
| RatingController.RatedAfterAdd | Controllers/Api/RatingController.cs:45-48 | once stored, a rating makes every later attempt by the same user for that appointment count as already rated |
| ScheduleController.SlotAccess | Controllers/ScheduleController.cs:114-127 | a missing slot, no user and another trainer's slot are refused, in that order; access is granted only to the slot's owner |
| ScheduleController.SlotAccessForbidden | Controllers/ScheduleController.cs:124-127 | with slot ids unique, a signed-in user is forbidden exactly when the slot is not theirs |
| ScheduleController.CreateSlot | Controllers/ScheduleController.cs:49-91 | each refusal (day outside 0..6, no user, no trainer, bad time, end not after start) exactly under its condition with nothing stored; otherwise one slot of the user's trainer is appended under the next id |
| ScheduleController.Edited | Controllers/ScheduleController.cs:141-148 | an edit overwrites day, start, end, capacity and UpdatedAt and keeps id, trainer and CreatedAt |
| ScheduleController.EditSlot | Controllers/ScheduleController.cs:114-151 | the access refusals, then bad time and end not after start, each exactly under its condition; otherwise only the owner's slot is rewritten |
| ScheduleController.DeleteSlot | Controllers/ScheduleController.cs:176-195 | the access refusals leave the table as it was; otherwise exactly the owner's slot is cut out |
| ScheduleController.DeleteRemovesOnlyTarget | Controllers/ScheduleController.cs:191-192 | after a delete no slot has that id, and every other slot is still there |
| ScheduleController.DayThenStartOrder | Controllers/ScheduleController.cs:33-34 | the single sort key orders by day first and start time second |
| ScheduleController.MySchedule | Controllers/ScheduleController.cs:19-38 | no user and no trainer record are refused; otherwise exactly the trainer's slots, each as often as stored, by day and then start time |
| ServiceController.AvailableServices | Controllers/ServiceController.cs:115-131 | an unknown trainer is not found; otherwise exactly the catalogue services the trainer does not offer yet |
| ServiceController.AddServiceToTrainer | Controllers/ServiceController.cs:137-169 | an unknown trainer or service is not found and an existing link is refused, each exactly under its condition; otherwise one link at the given price is appended |
| ServiceController.CreateService | Controllers/ServiceController.cs:45-57 | a null or white-space name is refused with nothing stored; otherwise one service is appended under the next id |
| ServiceController.EditService | Controllers/ServiceController.cs:71-87 | an unknown id and a blank name are refused, each exactly under its condition; otherwise only that service is renamed |
| ServiceController.DeleteService | Controllers/ServiceController.cs:102-111 | an unknown id changes nothing; otherwise exactly that service is cut out and no service with that id is left |
| ServiceController.LinkedNotAvailable | Controllers/ServiceController.cs:124-128 | once linked, a service is no longer offered to that trainer |
| ServiceController.UnlinkedAvailable | Controllers/ServiceController.cs:124-128 | after a link is removed, the service is offered to the trainer again |
| TrainerController.NotesOrEmpty | Controllers/TrainerController.cs:98 | missing notes are stored as the empty string |
| TrainerController.BookAppointment | Controllers/TrainerController.cs:56-106 | each refusal (no trainer or slot, weekday mismatch, slot taken on that date, notes over 500 characters) exactly under its condition with nothing stored; otherwise one Awaiting appointment at the slot's hour is appended under the next id |
| TrainerController.AddService | Controllers/TrainerController.cs:238-262 | a user without a trainer record changes nothing; otherwise the trainer's link to the service is added unless it is there |
| TrainerController.RemoveService | Controllers/TrainerController.cs:265-284 | a user without a trainer record changes nothing; otherwise the trainer's link to the service is removed if it is there |
| TrainerController.SecondBookingRefused | Controllers/TrainerController.cs:75-89 | after a booking, any second booking of the same slot on the same date is refused |
| TrainerController.BookingKeepsSlotDatesUnique | Controllers/TrainerController.cs:75-102 | a successful booking keeps the appointments table well formed |
| AdminController.OrEmpty | Controllers/AdminController.cs:78-79 | a missing id array counts as an empty one |
| AdminController.Combined | Controllers/AdminController.cs:76-79 | the trainers in input order, then the gyms in input order |
| AdminController.Selection | Controllers/AdminController.cs:82 | the first four picks of the combined list, or all of them when there are fewer |
| AdminController.FeaturedRows | Controllers/AdminController.cs:88-98 | one active row per pick, with consecutive ids and Order 1, 2, ... |
| AdminController.CombineSelection | Controllers/AdminController.cs:76-82 | the two loops and Take(4) build exactly the selection |
| AdminController.WriteFeatured | Controllers/AdminController.cs:88-98 | the loop writes exactly the featured rows of the picks |
| AdminController.SaveFeatured | Controllers/AdminController.cs:73-104 | every old featured item is gone and the table is exactly the rows of the new selection |
| AdminController.FeaturedRowsOk | Controllers/AdminController.cs:91-97 | rows written from picks that each name one trainer or one gym satisfy the featured table's invariant |
| AdminController.SelectedRowsOk | Controllers/AdminController.cs:76-98 | the rows a rebuild writes satisfy the featured table's invariant |
| AdminController.SelectionTargets | Controllers/AdminController.cs:78-79 | every pick names exactly one trainer or one gym |
| AdminController.FeaturedListing | Controllers/AdminController.cs:57-63 | exactly the active featured items, each as often as stored, by ascending Order |
| AdminController.ListingAfterRebuild | Controllers/AdminController.cs:57-98 | right after a rebuild the listing shows exactly the new rows, in the order they were picked |
| GymController.MatchFeature | Controllers/GymController.cs:75 | the first catalogue feature whose lowered name equals the lowered custom name, or -1 exactly when none does |
| GymController.SelectedIds | Controllers/GymController.cs:56-66 | the ticked ids that name a catalogue feature, and nothing when the list is null |
| GymController.SelectedFromCatalogue | Controllers/GymController.cs:58-60 | every ticked id taken names a catalogue feature |
| GymController.CustomStep | Controllers/GymController.cs:73-78 | one custom name adds at most one id and at most one created feature, keeps what was there as a prefix, and creates a feature only for a name matching no catalogue entry |
| GymController.CustomFeatures | Controllers/GymController.cs:70-79 | the custom names extend the list and the created features without changing what came before, creating at most one feature per name |
| GymController.CustomNames | Controllers/GymController.cs:69-72 | a null or blank text gives no names; every name read is non-empty, trimmed and free of commas |
| GymController.BuildFeatureSet | Controllers/GymController.cs:56-78 | the gym's new list starts with exactly the ticked catalogue ids, and at most one feature is created per custom name |
| GymController.TickedFeatures | Controllers/GymController.cs:56-66 | the ticked-features loop builds exactly the selected ids |
| GymController.AddCustomName | Controllers/GymController.cs:150-165 | one custom name is processed as the step function says |
| GymController.CollectFeatures | Controllers/GymController.cs:56-78 | both loops together build exactly the specified feature set |
| GymController.CustomFeaturesCreated | Controllers/GymController.cs:73-78 | a feature is created only for a custom name that matches no catalogue entry, with that name and the default icon; there are never more created features than names |
| GymController.CustomFeaturesNumbered | Controllers/GymController.cs:77 | created features get consecutive ids from the next feature id |
| GymController.CustomFeaturesIds | Controllers/GymController.cs:147-166 | every listed id is a ticked one, a catalogue feature or a created feature |
| GymController.CustomFeaturesCover | Controllers/GymController.cs:150-165 | every custom name ends up in the list, as its matching catalogue feature or as a feature created with that name |
| GymController.EditNoDuplicates | Controllers/GymController.cs:154-158 | on Edit the rebuilt list never holds a feature twice |
| GymController.SelectedDistinct | Controllers/GymController.cs:136-138 | the ticked ids taken are distinct and already stored |
| GymController.CustomNamesSingle | Controllers/GymController.cs:69-72 | one trimmed, non-blank custom name without a comma is read as exactly that name |
| GymController.TickedAndTypedSet | Controllers/GymController.cs:56-78 | when a ticked catalogue feature is also the single custom name, the feature set is the ticked ids followed by one custom-name step |
| GymController.CreateMayRepeatFeature | Controllers/GymController.cs:56-78 | on Create, for any catalogue and any ticked feature typed in again as the custom name, the list is the ticked ids followed by that feature's id a second time, and nothing is created |
| GymController.EditListsFeatureOnce | Controllers/GymController.cs:131-166 | the same input on Edit lists exactly the ticked ids, so that feature once, and creates nothing |
| GymController.AppendCreated | Controllers/GymController.cs:77 | appending the created features keeps catalogue ids distinct and below the next id |
| GymController.FeatureSetSaved | Controllers/GymController.cs:81-82 | saving a feature set keeps the catalogue's identity invariant |
| GymController.ListedFeaturesExist | Controllers/GymController.cs:56-82 | every id of a gym's new list names a feature stored with it |
| GymController.FeatureSetStored | Controllers/GymController.cs:56-82 | the catalogue with the new features keeps its invariants and holds every listed feature |
| GymController.SaveFeatureSet | Controllers/GymController.cs:68-82 | the new features are appended to the catalogue under consecutive ids, and the list returned names only stored features |
| GymController.CreateGym | Controllers/GymController.cs:51-89 | an invalid form saves nothing; otherwise the gym is appended under the next id with its feature list, and the new features are stored with it |
| GymController.AddGym | Controllers/GymController.cs:81-82 | the new gym takes the next gym id and nothing else in the table changes |
| GymController.EditedGym | Controllers/GymController.cs:125-131 | an edited gym keeps its id and takes the four scalar columns from the form and the rebuilt feature list |
| GymController.EditGym | Controllers/GymController.cs:108-183 | a route id different from the form's is not found, an invalid form saves nothing, an unknown gym is not found, each exactly under its condition; otherwise only that gym is rewritten and its previous features play no part |
| GymController.UpdateGym | Controllers/GymController.cs:124-131 | only the tracked gym row is rewritten |

## Left out

- The background loop of the completion service is left out: its cancellation token, its delay between passes, its logging and its catch-all exception handler. `AppointmentCompletion.Sweep` models one pass.
- The clock becomes parameters. The source reads `DateTime.Now` separately at each use. The model reads it once per pass or action as `now`, so UpdatedAt, CompletedAt and the notification's CreatedAt of one row share an instant.
- The sweep's notifications are left out of its write-back timing. The source saves after each notification (which also flushes the pending appointment changes) and once more at the end when something was selected. The model's final state is the same; a crash mid-pass is not modelled.
- The six-argument `CreateNotificationAsync` overload that the sweep calls is not in Services/NotificationService.cs, which has only the three-argument one. `NotificationService.CreateNotification` takes the three action fields as parameters, and the three-argument call passes none.
- `string.ToLower`, `TimeOnly.TryParse`, the `dd/MM/yyyy` date format and `ModelState.IsValid` are parameters. Their own behaviour, culture rules included, is not modelled.
- GymController.MatchFeature: one `lower` function stands for both sides of the name comparison (Controllers/GymController.cs:75, 152). In the source the catalogue side is lowered by the database (SQL `LOWER`) and the typed side by .NET under the current culture, so under a Turkish culture the two can disagree on 'I'; the model does not capture that difference.
- The attribute checks behind `ModelState.IsValid` are folded into `modelValid`. Examples are the gym name length 5..50, the address length 150 and the capacity range 1..100.
- Column widths other than Notes are not modelled. Neither are foreign keys or cascade deletes.
  - A booking, rating or link may name a row that was later deleted.
  - Deleting a service or slot leaves its links and appointments in place.
- TrainerController.BookAppointment: SQL Server refuses notes over 500 characters only when `SaveChanges` runs. The model returns `NotesTooLong` before storing anything, which is the same outcome for the database.
- `DbUpdateConcurrencyException` on gym edit is not modelled, and neither are other storage failures.
- Rating averages on the admin page are left out because they are floating point and display only. So are the `Include` joins of the featured listing; the listing returns the rows themselves.
- Ties in `OrderBy` keep table order (a stable sort). `FirstOrDefault` without an ordering returns the first row in table order. AppointmentCompletion.Sweep: the due-rows query (Services/AppointmentCompletionService.cs:33-35) has no `OrderBy`; the model visits the due rows in table order, so the order of the notices and of their ids follows table order, which the database does not promise.
- AppointmentController.RejectedToday: NULL UpdatedAt values sort last, as on SQL Server.
- The accept, reject and cancel flows of appointments are outside this core, and so are the trainer account pages, AccountController and the view-only GET pages.
- Controllers/NotificationController.cs is not part of this model; only the service it calls is.
- TrainerController.BookAppointment, TrainerController.AddService and TrainerController.RemoveService do not check the signed-in user (the source dereferences it unchecked at Controllers/TrainerController.cs:94, 241-242 and 268-269). The model takes the user id as given.
- Many-to-many gym features are a list of ids on the gym row. How Entity Framework would store a feature listed twice (see GymController.CreateMayRepeatFeature) is not modelled.
