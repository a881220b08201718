# Seat inventory and reservation engine of the showtimes service

This project models the seat side of the cinema back end's `ShowtimesService`. Each showtime
owns one seat document per seat of its room's layout. A seat has a position (row and seat
number), a classification (regular, vip or couple) and a price. It also has a status:
AVAILABLE, RESERVED (a hold by a user that ends at an expiry instant) or BOOKED (sold under a
booking). The service does these things:

- It **initialises** the seats of a showtime from the room layout, pricing each seat from the
  showtime's price table.
- It **reserves** and **books** seats, each all or nothing.
- It **releases** held seats and **sweeps** away holds whose time has passed.
- It **lists** the seats of a showtime (all, or the AVAILABLE ones) in (row, seat number) order.
- It reads a showtime's **price table**.

## Structure

| file | module | contents |
|---|---|---|
| `wrappers.dfy` | `Wrappers` | `Option`, `Result`, `Outcome` |
| `service_errors.dfy` | `ServiceErrors` | the exceptions the service raises, plus the validation and duplicate-key errors of the seat collection's `insertMany` |
| `pricing_dto.dfy` | `PricingDto` | the price table and its non-negativity validation |
| `reserve_seats_dto.dfy` | `ReserveSeatsDto` | the duration field (left out, null or a number), its validation, and the minutes the service adds for it |
| `seat_schema.dfy` | `SeatSchema` | the seat document, its status/field invariant, the required check, the unique index on (showtime, row, seatNumber) and the store invariant |
| `catalog_records.dfy` | `CatalogRecords` | rooms, room layouts and showtimes, which the service only reads |
| `distinct.dfy` | `Distinct` | when a set of found ids is as large as the requested id list |
| `seat_initializer.dfy` | `SeatInitializer` | layout expansion, the nested materialisation loop, the lookups, `insertMany` with schema validation and ordered insertion under the unique index |
| `reservations.dfy` | `Reservations` | reserve, book, release and sweep as functions of the collection, with their lemmas |
| `seat_queries.dfy` | `SeatQueries` | string and position order, insertion sort, the listing filters, the pricing lookup |
| `showtimes_service.dfy` | `Showtimes` | class `ShowtimesService`: the seat collection as a `map` field, its mutating methods and its two listing queries |

The class keeps `seats: map<SeatId, Seat>` and `nextId`, the id the next inserted document
receives. Its invariant `Valid()` is `SeatSchema.StoreInvariant`, which has four parts:

- every stored id is below `nextId`;
- every seat carries exactly the optional fields its status calls for: an expiry exactly when
  RESERVED, a booking and a booking time exactly when BOOKED, and a holder exactly when not
  AVAILABLE;
- the unique index holds;
- every seat has a non-empty row label and seat number, as the schema's required check demands
  of every document written.

Every method keeps `Valid()`. Each mutating method states its new state as a function of the
old one (`Reserve`, `Book`, `Release`, `Sweep`, `InsertMany`). The lemmas about those
functions state what the source promises.

Modelling choices:

- The clock is a `now: int` parameter in minutes.
- ObjectIds are natural numbers.
- Rooms, layouts and showtimes come in as a `Catalog` value.
- The result of reserve and book is the map of the requested ids to their updated documents.
- Strings are compared character by character, so seat `"10"` lists before seat `"2"`, as a
  string sort does.

How the code behaves at its edges:

- Initialisation does not check for existing seats. A second run is refused only by the unique
  index, with a duplicate-key error.
- `insertMany` validates every document before it writes any. An entry with an empty row label
  or seat number fails the required check, and the whole batch is refused with a validation
  error.
- A refused reservation or booking is a bad-request error (`SeatsUnavailable`,
  `SeatsNotBookable`).
- An empty id list is not rejected: reserve and book succeed and change nothing.
- A repeated id makes reserve and book fail, because the guard compares the number of distinct
  matching documents with the length of the list.
- An id of another showtime fails with the same error as a taken seat.
- The service does not validate the hold duration itself. Only the request body's validators
  bound a given number to 5..60 minutes, so the model states that window under the premise
  that the request passed validation.
- A duration that is an explicit JSON null passes validation, since the optional marker skips
  the other validators for null as well as for a missing field. The service's default of 15
  minutes applies only to a missing field; the null is added to the clock as zero. Such a hold
  ends the moment it is made: no booking accepts it, and the next sweep frees it.
- There is no error for a release that matches nothing.

## Model

| member | source | states |
|---|---|---|
| `SeatSchema.NewSeat` | src/modules/showtimes/schemas/seat.schema.ts:9-33 | a document built from the five required fields copies them, takes the default status AVAILABLE and carries no optional field, so it satisfies the status/field invariant |
| `SeatSchema.SameIdentitiesKeepUnique` | src/modules/showtimes/schemas/seat.schema.ts:50-51 | an update that keeps every seat's showtime, row and seat number keeps the unique index satisfied, and keeps every required field filled |
| `SeatSchema.SameIdentitiesKeepInvariant` | src/modules/showtimes/schemas/seat.schema.ts:8-51 | an update that keeps every document well formed and reassigns no position or classification keeps the whole store invariant |
| `SeatInitializer.PriceNonNegative` | src/modules/showtimes/dto/pricing.dto.ts:4-18 | under a price table whose three prices are at least 0, every materialised seat has a price of at least 0 |
| `ReserveSeatsDto.HoldMinutes` | src/modules/showtimes/showtimes.service.ts:253-274 | a missing duration adds 15 minutes, a null adds none, a number is added as given; a validated duration that is not null lies in 5..60 |
| `SeatInitializer.PriceFollowsType` | src/modules/showtimes/showtimes.service.ts:205-214 | type "vip" gives a vip seat at the vip price, "couple" a couple seat at the couple price, any other type a regular seat at the regular price |
| `SeatInitializer.LayoutSeatAt` | src/modules/showtimes/showtimes.service.ts:203-225 | the created list has one seat per layout entry, and the seat at position (seats of the earlier rows) + k is entry k of row i: its row label, its number, priced by its type, AVAILABLE |
| `SeatInitializer.LayoutSeatsFresh` | src/modules/showtimes/showtimes.service.ts:216-223 | every created seat belongs to the showtime, is AVAILABLE and satisfies the status/field invariant |
| `SeatInitializer.EmptyRowsMaterializeNothing` | src/modules/showtimes/showtimes.service.ts:227-229 | a layout whose rows hold no seats creates no seat, so nothing is inserted |
| `SeatInitializer.MaterializeLayout` | src/modules/showtimes/showtimes.service.ts:201-225 | the nested loop over rows and their seats builds exactly the row-major list of materialised layout entries |
| `SeatInitializer.ResolveLayout` | src/modules/showtimes/showtimes.service.ts:179-197 | the lookups fail in order (room not found, else its layout not found, else showtime not found), each error exactly under its condition; otherwise they give the layout and the showtime's price table |
| `SeatInitializer.InsertSeatsEffect` | src/modules/showtimes/showtimes.service.ts:227-229 | inserting keeps every existing document and adds the new ones, the k-th under the k-th fresh id, and nothing else |
| `SeatInitializer.InsertMany` | src/modules/showtimes/showtimes.service.ts:227-229 | a batch with a document that fails the required check is refused with the validation error and nothing is written; a batch that validates can fail only with the duplicate-key error |
| `SeatInitializer.InsertManyOutcome` | src/modules/showtimes/showtimes.service.ts:227-229 | insertMany succeeds exactly when every document passes the required check and the batch fits under the unique index, and then every document is in; on failure exactly a proper prefix stays inserted, none when validation refused the batch |
| `SeatInitializer.InsertOrdered` | src/modules/showtimes/showtimes.service.ts:227-229 | the ordered insertion of a validated batch can fail only with the duplicate-key error |
| `SeatInitializer.InsertOrderedOutcome` | src/modules/showtimes/showtimes.service.ts:227-229 | once validation has passed, the ordered insertion succeeds exactly when no new document takes an occupied position and no two share one, and then it is the plain insertion; on failure exactly a proper prefix of the batch stays inserted |
| `SeatInitializer.InsertOrderedKeepsWellFormed` | src/modules/showtimes/showtimes.service.ts:216-229 | whatever part of a batch of well-formed AVAILABLE documents goes in, every stored document stays well formed, every id stays below the counter after the batch, and when the batch passed the required check every stored document still does |
| `SeatInitializer.InsertOrderedKeepsUnique` | src/modules/showtimes/schemas/seat.schema.ts:50-51 | whatever part of a batch goes in, the unique index on (showtime, row, seatNumber) stays satisfied |
| `SeatInitializer.LayoutSeatsMeetRequired` | src/modules/showtimes/schemas/seat.schema.ts:12-16 | the created documents pass the required check exactly when every layout entry has a non-empty row label and seat number |
| `SeatInitializer.FirstInitializationFits` | src/modules/showtimes/showtimes.service.ts:175-229 | for a showtime without seats and a layout whose entries are all filled in and repeat no (row, number) pair, the whole batch goes in |
| `SeatInitializer.UnfilledLayoutRefused` | src/modules/showtimes/showtimes.service.ts:216-229 | a layout with an entry whose row label or seat number is empty makes initialisation fail with the validation error, with nothing inserted |
| `SeatInitializer.SecondInitializationRefused` | src/modules/showtimes/showtimes.service.ts:175-229 | when every seat of a non-empty layout is already present in a collection whose documents passed the required check, initialisation fails with the duplicate-key error and inserts nothing |
| `Distinct.CardMatchesLength` | src/modules/showtimes/showtimes.service.ts:260-270 | the set of found ids from a list is as large as the list exactly when the list repeats no id and every id of it was found |
| `Reservations.Reserve` | src/modules/showtimes/showtimes.service.ts:260-287 | a reservation succeeds exactly when the list repeats no id and every id names an AVAILABLE seat of the showtime; otherwise it fails with the not-available error |
| `Reservations.ReserveEffect` | src/modules/showtimes/showtimes.service.ts:273-287 | on success exactly the requested seats become RESERVED with this holder and this expiry, keeping every other field; every other seat is unchanged |
| `Reservations.HoldDuration` | src/modules/showtimes/dto/reserve-seats.dto.ts:20-31 | a reservation made with a validated duration that is a number or left out holds its seats until now + 5 to now + 60, and until now + 15 when it is left out |
| `Reservations.NullDurationEndsHoldAtOnce` | src/modules/showtimes/dto/reserve-seats.dto.ts:28-31 | a null duration passes validation, yet the hold it makes ends at the moment of the request: every booking of those seats at that moment or later fails, and a sweep a minute later frees them |
| `Reservations.EmptyRequestChangesNothing` | src/modules/showtimes/showtimes.service.ts:260-270 | an empty id list makes reserve and book succeed and release do nothing, all without changing the collection |
| `Reservations.ReserveKeepsInvariant` | src/modules/showtimes/showtimes.service.ts:276-287 | a reservation keeps the status/field invariant, every seat's position and classification, the unique index and the filled required fields |
| `Reservations.Book` | src/modules/showtimes/showtimes.service.ts:309-344 | a booking succeeds exactly when the list repeats no id and every id names a seat of the showtime that is AVAILABLE or held by this user with an expiry after now; otherwise it fails with the not-bookable error |
| `Reservations.BookEffect` | src/modules/showtimes/showtimes.service.ts:331-344 | on success exactly the requested seats become BOOKED by this user under this booking at now with the expiry cleared; every other seat is unchanged |
| `Reservations.BookKeepsInvariant` | src/modules/showtimes/showtimes.service.ts:331-344 | a booking keeps the status/field invariant, positions and classifications, the unique index and the filled required fields |
| `Reservations.ReserveReturnsHolds` | src/modules/showtimes/showtimes.service.ts:273-292 | after a successful reservation the returned documents are exactly those of the requested ids, each of the showtime and RESERVED by the user until the expiry |
| `Reservations.BookReturnsSales` | src/modules/showtimes/showtimes.service.ts:330-350 | after a successful booking the returned documents are exactly those of the requested ids, each of the showtime and BOOKED by the user under the booking at now, with no expiry |
| `Reservations.ReleaseEffect` | src/modules/showtimes/showtimes.service.ts:355-370 | release frees exactly the named RESERVED seats of the showtime, clearing holder and expiry and keeping the rest; AVAILABLE, BOOKED, other-showtime and unnamed seats are unchanged |
| `Reservations.ReleaseKeepsInvariant` | src/modules/showtimes/showtimes.service.ts:359-369 | release keeps the status/field invariant, positions and classifications, the unique index and the filled required fields |
| `Reservations.ReleaseIdempotent` | src/modules/showtimes/showtimes.service.ts:355-370 | releasing twice is releasing once |
| `Reservations.ReleaseUndoesReserve` | src/modules/showtimes/showtimes.service.ts:355-370 | releasing the seats of a successful reservation restores the collection exactly as it was before the reservation |
| `Reservations.SweepEffect` | src/modules/showtimes/showtimes.service.ts:372-383 | the sweep frees exactly the RESERVED seats, of any showtime, whose expiry is strictly before now, clearing holder and expiry and keeping booking fields, position and classification; every other seat is unchanged |
| `Reservations.SweepKeepsInvariant` | src/modules/showtimes/showtimes.service.ts:373-382 | the sweep keeps the status/field invariant, positions and classifications, the unique index and the filled required fields |
| `Reservations.SweepIdempotent` | src/modules/showtimes/showtimes.service.ts:372-383 | sweeping twice at the same instant is sweeping once |
| `Reservations.HoldLapses` | src/modules/showtimes/showtimes.service.ts:372-383 | after a successful reservation, a sweep after its expiry frees its seats, and a sweep at or before the expiry leaves them held by the user |
| `Reservations.SweepUndoesLapsedReserve` | src/modules/showtimes/showtimes.service.ts:372-383 | once a reservation's expiry has passed, the sweep leaves the collection as if the reservation had never been made |
| `Reservations.HoldEndingNow` | src/modules/showtimes/showtimes.service.ts:313-320 | a hold whose expiry is exactly now is neither bookable, even by its holder, nor swept |
| `Reservations.BookedIsFinal` | src/modules/showtimes/showtimes.service.ts:249-383 | a BOOKED seat is unchanged by every successful reservation, every successful booking, every release and every sweep |
| `Reservations.OverlappingReservationsExclude` | src/modules/showtimes/showtimes.service.ts:260-270 | after a successful reservation, any reservation that shares a seat with it fails with the not-available error |
| `Reservations.DisjointReservationsBothSucceed` | src/modules/showtimes/showtimes.service.ts:260-287 | two reservations that could each succeed, and share no seat, both succeed one after the other |
| `Reservations.HolderBooksBeforeExpiry` | src/modules/showtimes/showtimes.service.ts:309-328 | before the expiry the holder can book its reserved seats, and any other user is refused with the not-bookable error |
| `Reservations.EndedHoldBlocksBooking` | src/modules/showtimes/showtimes.service.ts:309-328 | a requested seat whose hold has ended but was not yet swept makes every booking fail, the holder's included |
| `Reservations.TwoSeatScenario` | src/modules/showtimes/showtimes.service.ts:249-353 | with seats A1 and A2 AVAILABLE: one user's hold of A1 succeeds; a second user's request for A1 and A2 fails, leaving A2 AVAILABLE; the first user then books A1 |
| `SeatQueries.SortSorted` | src/modules/showtimes/showtimes.service.ts:235 | the sort orders by row, then seat number, with the same multiset of seats |
| `SeatQueries.SortedListing` | src/modules/showtimes/showtimes.service.ts:232-247 | the sorted listing is ordered by (row, seat number) and holds exactly one entry per stored document that passes the filter |
| `SeatQueries.ListingAvailable` | src/modules/showtimes/showtimes.service.ts:239-247 | filtering on showtime and AVAILABLE is filtering on showtime and then keeping the AVAILABLE entries |
| `SeatQueries.AvailableOnlySort` | src/modules/showtimes/showtimes.service.ts:239-247 | keeping the AVAILABLE seats commutes with the sort |
| `SeatQueries.GetSeatPricing` | src/modules/showtimes/showtimes.service.ts:385-393 | the stored price table of an existing showtime, otherwise the showtime-not-found error |
| `Showtimes.ShowtimesService.InitializeSeatsForShowtime` | src/modules/showtimes/showtimes.service.ts:175-230 | each lookup error leaves the collection unchanged; otherwise the materialised layout goes through insertMany, validation and then the ordered insertion (nothing when it is empty), and the invariant is kept |
| `Showtimes.ShowtimesService.ReserveSeats` | src/modules/showtimes/showtimes.service.ts:249-296 | the new collection and result are those of `Reserve` at now + `HoldMinutes` of the duration field (left out by default), failures changing nothing; the result holds exactly the requested documents as they now stand, and the invariant is kept |
| `Showtimes.ShowtimesService.BookSeats` | src/modules/showtimes/showtimes.service.ts:298-353 | the new collection and result are those of `Book`, failures changing nothing |
| `Showtimes.ShowtimesService.ReleaseReservedSeats` | src/modules/showtimes/showtimes.service.ts:355-370 | the new collection is `Release` of the old one, with the invariant kept |
| `Showtimes.ShowtimesService.ReleaseExpiredReservations` | src/modules/showtimes/showtimes.service.ts:372-383 | the new collection is `Sweep` of the old one at now, with the invariant kept |
| `Showtimes.ShowtimesService.GetSeatsByShowtime` | src/modules/showtimes/showtimes.service.ts:232-237 | the result is sorted by (row, seat number), holds exactly the stored seats of the showtime, and has one entry per such document |
| `Showtimes.ShowtimesService.GetAvailableSeats` | src/modules/showtimes/showtimes.service.ts:239-247 | the result is the AVAILABLE subsequence of the full listing, sorted, and holds exactly the stored AVAILABLE seats of the showtime |

## Left out

- Database sessions, `withTransaction` and `endSession`: each method call is one atomic step. Concurrent interleavings, aborted transactions and storage failures are not modelled.
- The scheduled cleanup service that calls the sweep on a timer and logs its errors: only the sweep itself is modelled.
- The parsing of the stored layout text: the layout arrives already parsed. A layout that does not parse is not modelled.
- The raw lookups of rooms and room layouts: they are partial maps in a `Catalog` value.
- `create`, `findAll`, `findOne`, `update`, `remove`, `getShowtimesByMovie` and `getShowtimesByDate`: showtime catalogue queries built on populate and calendar-day windows, outside the seat engine.
- Dates and `setMinutes`: instants are whole minutes. Prices are integers, not floating-point numbers.
- ObjectId strings and their parsing: ids are natural numbers, and new ids come from a counter. A malformed id string, which would make the source throw while converting it, is not modelled.
- Showtimes.ShowtimesService.InitializeSeatsForShowtime: advances the id counter past the whole batch even when the batch stops early, since fresh ids are drawn before sending.
- Showtimes.ShowtimesService.BookSeats: uses one instant `now` for both clock reads of the source, the eligibility check and `bookedAt`.
- Showtimes.ShowtimesService.ReserveSeats: returns the documents of the final find as a map from id to document, so their order is not modelled.
- Showtimes.ShowtimesService.GetSeatsByShowtime and Showtimes.ShowtimesService.GetAvailableSeats: return the seat documents without their ids, and list ties in id order. Under the unique index no two seats of a showtime tie.
- The `createdAt`/`updatedAt` timestamps the schema adds.
- Schema validation other than the required check on row label and seat number: the other required fields and the seat-type enum always hold in the documents the initialiser builds, and casting of values is not modelled.
- The controllers, the showtime schema, the other DTOs and the module wiring: routing, authorisation and declarations with no seat behaviour.
