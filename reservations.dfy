/** The four state changes of the seat collection, as functions of the collection before the
    change: reserve, book, release and the expiry sweep. */
module Reservations {
  import opened Wrappers
  import opened ServiceErrors
  import opened SeatSchema
  import opened Distinct
  import opened ReserveSeatsDto

  /** The guard of reserveSeats' find: the seat belongs to the showtime and is AVAILABLE. */
  predicate Reservable(s: Seat, showtimeId: ShowtimeId)
  {
    s.showtime == showtimeId && s.status == Available
  }

  /** The guard of bookSeats' find: the seat belongs to the showtime and is AVAILABLE, or is
      RESERVED by this user with a hold that ends strictly after now. */
  predicate Bookable(s: Seat, showtimeId: ShowtimeId, userId: UserId, now: Minutes)
  {
    && s.showtime == showtimeId
    && (|| s.status == Available
        || (s.status == Reserved && s.bookedBy == Some(userId) && s.expiresAt.Some? && s.expiresAt.value > now))
  }

  /** The filter of the sweep: a RESERVED seat whose hold ended strictly before now. */
  predicate Lapsed(s: Seat, now: Minutes)
  {
    s.status == Reserved && s.expiresAt.Some? && s.expiresAt.value < now
  }

  /** The $set of reserveSeats. */
  function Hold(s: Seat, userId: UserId, expiresAt: Minutes): Seat
  {
    s.(status := Reserved, bookedBy := Some(userId), expiresAt := Some(expiresAt))
  }

  /** The $set and $unset of bookSeats. */
  function Sell(s: Seat, userId: UserId, bookingId: BookingId, now: Minutes): Seat
  {
    s.(status := Booked, bookedBy := Some(userId), booking := Some(bookingId), bookedAt := Some(now), expiresAt := None)
  }

  /** The $set and $unset shared by release and the sweep. */
  function Free(s: Seat): Seat
  {
    s.(status := Available, bookedBy := None, expiresAt := None)
  }

  /** The distinct requested documents the guarding find of reserveSeats returns. */
  function ReservableFound(seats: SeatMap, showtimeId: ShowtimeId, seatIds: seq<SeatId>): set<SeatId>
  {
    set id | id in seatIds && id in seats && Reservable(seats[id], showtimeId)
  }

  function BookableFound(seats: SeatMap, showtimeId: ShowtimeId, seatIds: seq<SeatId>, userId: UserId, now: Minutes): set<SeatId>
  {
    set id | id in seatIds && id in seats && Bookable(seats[id], showtimeId, userId, now)
  }

  /** Every requested id names a document that passes the guard. */
  predicate AllReservable(seats: SeatMap, showtimeId: ShowtimeId, seatIds: seq<SeatId>)
  {
    forall i :: 0 <= i < |seatIds| ==> seatIds[i] in seats && Reservable(seats[seatIds[i]], showtimeId)
  }

  predicate AllBookable(seats: SeatMap, showtimeId: ShowtimeId, seatIds: seq<SeatId>, userId: UserId, now: Minutes)
  {
    forall i :: 0 <= i < |seatIds| ==> seatIds[i] in seats && Bookable(seats[seatIds[i]], showtimeId, userId, now)
  }

  /** reserveSeats: all or nothing. The count of found documents is compared with the length of
      the id list, so the reservation goes through exactly when the list repeats no id and each
      id names an AVAILABLE seat of this showtime. */
  function Reserve(seats: SeatMap, showtimeId: ShowtimeId, seatIds: seq<SeatId>, userId: UserId, expiresAt: Minutes)
    : (r: Result<SeatMap, ServiceError>)
    ensures r.Success? <==> NoDuplicates(seatIds) && AllReservable(seats, showtimeId, seatIds)
    ensures r.Failure? ==> r.error == SeatsUnavailable
  {
    var found := ReservableFound(seats, showtimeId, seatIds);
    CardMatchesLength(found, seatIds);
    if |found| != |seatIds| then Failure(SeatsUnavailable)
    else Success(HoldAll(seats, seatIds, userId, expiresAt))
  }

  /** The updateMany of reserveSeats: every stored seat whose id is requested becomes a hold. */
  function HoldAll(seats: SeatMap, seatIds: seq<SeatId>, userId: UserId, expiresAt: Minutes): SeatMap
  {
    map id | id in seats :: if id in seatIds then Hold(seats[id], userId, expiresAt) else seats[id]
  }

  /** bookSeats: all or nothing, with the booking guard. */
  function Book(seats: SeatMap, showtimeId: ShowtimeId, seatIds: seq<SeatId>, userId: UserId, bookingId: BookingId, now: Minutes)
    : (r: Result<SeatMap, ServiceError>)
    ensures r.Success? <==> NoDuplicates(seatIds) && AllBookable(seats, showtimeId, seatIds, userId, now)
    ensures r.Failure? ==> r.error == SeatsNotBookable
  {
    var found := BookableFound(seats, showtimeId, seatIds, userId, now);
    CardMatchesLength(found, seatIds);
    if |found| != |seatIds| then Failure(SeatsNotBookable)
    else Success(SellAll(seats, seatIds, userId, bookingId, now))
  }

  /** The updateMany of bookSeats: every stored seat whose id is requested is sold. */
  function SellAll(seats: SeatMap, seatIds: seq<SeatId>, userId: UserId, bookingId: BookingId, now: Minutes): SeatMap
  {
    map id | id in seats :: if id in seatIds then Sell(seats[id], userId, bookingId, now) else seats[id]
  }

  /** releaseReservedSeats: one update whose filter picks the named RESERVED seats of the
      showtime; it cannot fail. */
  function Release(seats: SeatMap, showtimeId: ShowtimeId, seatIds: seq<SeatId>): SeatMap
  {
    map id | id in seats ::
      if id in seatIds && seats[id].showtime == showtimeId && seats[id].status == Reserved then Free(seats[id]) else seats[id]
  }

  /** releaseExpiredReservations: one update over every showtime. */
  function Sweep(seats: SeatMap, now: Minutes): SeatMap
  {
    map id | id in seats :: if Lapsed(seats[id], now) then Free(seats[id]) else seats[id]
  }

  /** The documents of the requested ids, as the final find of reserve and book returns them. */
  function Selection(seats: SeatMap, seatIds: seq<SeatId>): (r: SeatMap)
    ensures r.Keys <= seats.Keys
    ensures forall id :: id in r <==> id in seats && id in seatIds
    ensures forall id :: id in r ==> r[id] == seats[id]
  {
    map id | id in seats && id in seatIds :: seats[id]
  }

  // ---------------------------------------------------------------------------------------
  // What each change does to each seat.

  /** A successful reservation turns exactly the requested seats into holds of this user ending
      at expiresAt; every other field of those seats, and every other seat, is unchanged. */
  lemma ReserveEffect(seats: SeatMap, showtimeId: ShowtimeId, seatIds: seq<SeatId>, userId: UserId, expiresAt: Minutes)
    requires Reserve(seats, showtimeId, seatIds, userId, expiresAt).Success?
    ensures var after := Reserve(seats, showtimeId, seatIds, userId, expiresAt).value;
      && after.Keys == seats.Keys
      && (forall id :: id in seatIds ==>
            && id in seats && seats[id].status == Available
            && after[id].status == Reserved && after[id].bookedBy == Some(userId) && after[id].expiresAt == Some(expiresAt)
            && IdentityOf(after[id]) == IdentityOf(seats[id])
            && after[id].booking == seats[id].booking && after[id].bookedAt == seats[id].bookedAt)
      && (forall id :: id in seats && id !in seatIds ==> after[id] == seats[id])
  {
  }

  /** A successful booking sells exactly the requested seats to this user under bookingId at
      now and clears their hold expiry; every other seat is unchanged. */
  lemma BookEffect(seats: SeatMap, showtimeId: ShowtimeId, seatIds: seq<SeatId>, userId: UserId, bookingId: BookingId, now: Minutes)
    requires Book(seats, showtimeId, seatIds, userId, bookingId, now).Success?
    ensures var after := Book(seats, showtimeId, seatIds, userId, bookingId, now).value;
      && after.Keys == seats.Keys
      && (forall id :: id in seatIds ==>
            && id in seats && seats[id].status != Booked
            && after[id].status == Booked && after[id].bookedBy == Some(userId)
            && after[id].booking == Some(bookingId) && after[id].bookedAt == Some(now) && after[id].expiresAt == None
            && IdentityOf(after[id]) == IdentityOf(seats[id]))
      && (forall id :: id in seats && id !in seatIds ==> after[id] == seats[id])
  {
  }

  /** After a successful reservation the final find returns one document per requested id, and
      nothing else: each is now of the showtime, RESERVED by userId until expiresAt. */
  lemma ReserveReturnsHolds(seats: SeatMap, showtimeId: ShowtimeId, seatIds: seq<SeatId>, userId: UserId, expiresAt: Minutes)
    requires Reserve(seats, showtimeId, seatIds, userId, expiresAt).Success?
    ensures var returned := Selection(Reserve(seats, showtimeId, seatIds, userId, expiresAt).value, seatIds);
      && (forall id :: id in returned <==> id in seatIds)
      && (forall id :: id in returned ==>
            && returned[id].showtime == showtimeId && returned[id].status == Reserved
            && returned[id].bookedBy == Some(userId) && returned[id].expiresAt == Some(expiresAt))
  {
    ReserveEffect(seats, showtimeId, seatIds, userId, expiresAt);
  }

  /** After a successful booking the final find returns one document per requested id, and
      nothing else: each is now of the showtime, BOOKED by userId under bookingId at now, with
      no hold expiry left. */
  lemma BookReturnsSales(seats: SeatMap, showtimeId: ShowtimeId, seatIds: seq<SeatId>, userId: UserId, bookingId: BookingId, now: Minutes)
    requires Book(seats, showtimeId, seatIds, userId, bookingId, now).Success?
    ensures var returned := Selection(Book(seats, showtimeId, seatIds, userId, bookingId, now).value, seatIds);
      && (forall id :: id in returned <==> id in seatIds)
      && (forall id :: id in returned ==>
            && returned[id].showtime == showtimeId && returned[id].status == Booked
            && returned[id].bookedBy == Some(userId) && returned[id].booking == Some(bookingId)
            && returned[id].bookedAt == Some(now) && returned[id].expiresAt == None)
  {
    BookEffect(seats, showtimeId, seatIds, userId, bookingId, now);
  }

  /** Release frees exactly the named RESERVED seats of the showtime, clearing holder and hold
      expiry; AVAILABLE and BOOKED seats, seats of other showtimes and unnamed seats stay as
      they were, and ids naming no seat are ignored. */
  lemma ReleaseEffect(seats: SeatMap, showtimeId: ShowtimeId, seatIds: seq<SeatId>)
    ensures var after := Release(seats, showtimeId, seatIds);
      && after.Keys == seats.Keys
      && (forall id :: id in seats ==>
            if id in seatIds && seats[id].showtime == showtimeId && seats[id].status == Reserved
            then after[id].status == Available && after[id].bookedBy == None && after[id].expiresAt == None
                 && IdentityOf(after[id]) == IdentityOf(seats[id])
                 && after[id].booking == seats[id].booking && after[id].bookedAt == seats[id].bookedAt
            else after[id] == seats[id])
  {
  }

  /** The sweep frees exactly the seats whose hold ended strictly before now, in every showtime. */
  lemma SweepEffect(seats: SeatMap, now: Minutes)
    ensures var after := Sweep(seats, now);
      && after.Keys == seats.Keys
      && (forall id :: id in seats ==>
            if seats[id].status == Reserved && seats[id].expiresAt.Some? && seats[id].expiresAt.value < now
            then after[id].status == Available && after[id].bookedBy == None && after[id].expiresAt == None
                 && after[id].booking == seats[id].booking && after[id].bookedAt == seats[id].bookedAt
                 && IdentityOf(after[id]) == IdentityOf(seats[id])
            else after[id] == seats[id])
  {
  }

  /** An empty id list passes the guard and changes nothing. */
  lemma EmptyRequestChangesNothing(seats: SeatMap, showtimeId: ShowtimeId, userId: UserId, bookingId: BookingId, now: Minutes, expiresAt: Minutes)
    ensures Reserve(seats, showtimeId, [], userId, expiresAt) == Success(seats)
    ensures Book(seats, showtimeId, [], userId, bookingId, now) == Success(seats)
    ensures Release(seats, showtimeId, []) == seats
  {
    var r := Reserve(seats, showtimeId, [], userId, expiresAt);
    assert r.Success? && r.value == seats;
    var b := Book(seats, showtimeId, [], userId, bookingId, now);
    assert b.Success? && b.value == seats;
  }

  // ---------------------------------------------------------------------------------------
  // The invariants every change keeps.

  /** Each change keeps the status/field invariant of every seat and reassigns no position or
      classification, so the unique index and the required fields stay satisfied. */
  lemma ReserveKeepsInvariant(seats: SeatMap, showtimeId: ShowtimeId, seatIds: seq<SeatId>, userId: UserId, expiresAt: Minutes)
    requires AllWellFormed(seats)
    requires Reserve(seats, showtimeId, seatIds, userId, expiresAt).Success?
    ensures var after := Reserve(seats, showtimeId, seatIds, userId, expiresAt).value;
      && AllWellFormed(after) && SameIdentities(seats, after)
      && (UniquePositions(seats) ==> UniquePositions(after))
      && (AllMeetRequired(seats) ==> AllMeetRequired(after))
  {
    var after := Reserve(seats, showtimeId, seatIds, userId, expiresAt).value;
    ReserveEffect(seats, showtimeId, seatIds, userId, expiresAt);
    SameIdentitiesKeepUnique(seats, after);
  }

  lemma BookKeepsInvariant(seats: SeatMap, showtimeId: ShowtimeId, seatIds: seq<SeatId>, userId: UserId, bookingId: BookingId, now: Minutes)
    requires AllWellFormed(seats)
    requires Book(seats, showtimeId, seatIds, userId, bookingId, now).Success?
    ensures var after := Book(seats, showtimeId, seatIds, userId, bookingId, now).value;
      && AllWellFormed(after) && SameIdentities(seats, after)
      && (UniquePositions(seats) ==> UniquePositions(after))
      && (AllMeetRequired(seats) ==> AllMeetRequired(after))
  {
    var after := Book(seats, showtimeId, seatIds, userId, bookingId, now).value;
    BookEffect(seats, showtimeId, seatIds, userId, bookingId, now);
    SameIdentitiesKeepUnique(seats, after);
  }

  lemma ReleaseKeepsInvariant(seats: SeatMap, showtimeId: ShowtimeId, seatIds: seq<SeatId>)
    requires AllWellFormed(seats)
    ensures var after := Release(seats, showtimeId, seatIds);
      && AllWellFormed(after) && SameIdentities(seats, after)
      && (UniquePositions(seats) ==> UniquePositions(after))
      && (AllMeetRequired(seats) ==> AllMeetRequired(after))
  {
    var after := Release(seats, showtimeId, seatIds);
    ReleaseEffect(seats, showtimeId, seatIds);
    SameIdentitiesKeepUnique(seats, after);
  }

  lemma SweepKeepsInvariant(seats: SeatMap, now: Minutes)
    requires AllWellFormed(seats)
    ensures var after := Sweep(seats, now);
      && AllWellFormed(after) && SameIdentities(seats, after)
      && (UniquePositions(seats) ==> UniquePositions(after))
      && (AllMeetRequired(seats) ==> AllMeetRequired(after))
  {
    var after := Sweep(seats, now);
    SweepEffect(seats, now);
    SameIdentitiesKeepUnique(seats, after);
  }

  /** A BOOKED seat is final: no change touches it. */
  lemma BookedIsFinal(seats: SeatMap, id: SeatId, showtimeId: ShowtimeId, seatIds: seq<SeatId>, userId: UserId,
                      bookingId: BookingId, now: Minutes, expiresAt: Minutes)
    requires id in seats && seats[id].status == Booked
    ensures var r := Reserve(seats, showtimeId, seatIds, userId, expiresAt); r.Success? ==> r.value[id] == seats[id]
    ensures var b := Book(seats, showtimeId, seatIds, userId, bookingId, now); b.Success? ==> b.value[id] == seats[id]
    ensures Release(seats, showtimeId, seatIds)[id] == seats[id]
    ensures Sweep(seats, now)[id] == seats[id]
  {
    var r := Reserve(seats, showtimeId, seatIds, userId, expiresAt);
    if r.Success? {
      ReserveEffect(seats, showtimeId, seatIds, userId, expiresAt);
    }
    var b := Book(seats, showtimeId, seatIds, userId, bookingId, now);
    if b.Success? {
      BookEffect(seats, showtimeId, seatIds, userId, bookingId, now);
    }
  }

  // ---------------------------------------------------------------------------------------
  // Idempotence and the hold expiry boundary.

  lemma ReleaseIdempotent(seats: SeatMap, showtimeId: ShowtimeId, seatIds: seq<SeatId>)
    ensures Release(Release(seats, showtimeId, seatIds), showtimeId, seatIds) == Release(seats, showtimeId, seatIds)
  {
    var once := Release(seats, showtimeId, seatIds);
    var twice := Release(once, showtimeId, seatIds);
    assert twice.Keys == once.Keys;
    forall id | id in once ensures twice[id] == once[id] {
      assert once[id].status != Reserved || !(id in seatIds && once[id].showtime == showtimeId);
    }
  }

  lemma SweepIdempotent(seats: SeatMap, now: Minutes)
    ensures Sweep(Sweep(seats, now), now) == Sweep(seats, now)
  {
    var once := Sweep(seats, now);
    var twice := Sweep(once, now);
    assert twice.Keys == once.Keys;
    forall id | id in once ensures twice[id] == once[id] {
      assert !Lapsed(once[id], now);
    }
  }

  /** A hold ending exactly now is neither swept nor bookable, even by its holder. */
  lemma HoldEndingNow(s: Seat, showtimeId: ShowtimeId, userId: UserId, now: Minutes)
    requires s.status == Reserved && s.expiresAt == Some(now)
    ensures !Lapsed(s, now) && !Bookable(s, showtimeId, userId, now)
  {
  }

  /** A reservation made through a validated request that names a duration or leaves it out
      holds its seats for 5 to 60 minutes, 15 when the request leaves it out. */
  lemma HoldDuration(seats: SeatMap, showtimeId: ShowtimeId, seatIds: seq<SeatId>, userId: UserId,
                     expiresInMinutes: ExpiresInField, now: Minutes)
    requires IsValidExpiresIn(expiresInMinutes) && !expiresInMinutes.Null?
    requires Reserve(seats, showtimeId, seatIds, userId, now + HoldMinutes(expiresInMinutes)).Success?
    ensures var after := Reserve(seats, showtimeId, seatIds, userId, now + HoldMinutes(expiresInMinutes)).value;
      forall id :: id in seatIds ==>
        && after[id].expiresAt.Some?
        && now + MinExpiresInMinutes <= after[id].expiresAt.value <= now + MaxExpiresInMinutes
        && (expiresInMinutes.Absent? ==> after[id].expiresAt.value == now + DefaultExpiresInMinutes)
  {
    ReserveEffect(seats, showtimeId, seatIds, userId, now + HoldMinutes(expiresInMinutes));
  }

  /** A request whose duration is an explicit null passes validation, yet its hold ends at the
      moment it is made: no booking at that moment or later accepts the seat, and the first sweep
      after it frees the seat. */
  lemma NullDurationEndsHoldAtOnce(seats: SeatMap, showtimeId: ShowtimeId, seatIds: seq<SeatId>, userId: UserId,
                                   now: Minutes, bookingId: BookingId, later: Minutes)
    requires Reserve(seats, showtimeId, seatIds, userId, now + HoldMinutes(Null)).Success?
    requires |seatIds| > 0 && later >= now
    ensures IsValidExpiresIn(Null)
    ensures var after := Reserve(seats, showtimeId, seatIds, userId, now + HoldMinutes(Null)).value;
      && (forall id :: id in seatIds ==> after[id].status == Reserved && after[id].expiresAt == Some(now))
      && Book(after, showtimeId, seatIds, userId, bookingId, later) == Failure(SeatsNotBookable)
      && (forall id :: id in seatIds ==> Sweep(after, now + 1)[id].status == Available)
  {
    var after := Reserve(seats, showtimeId, seatIds, userId, now).value;
    ReserveEffect(seats, showtimeId, seatIds, userId, now);
    assert seatIds[0] in seatIds;
    assert !AllBookable(after, showtimeId, seatIds, userId, later);
  }

  /** Untouched holds end: the sweep after the expiry frees them; a sweep at or before it leaves
      them held. */
  lemma HoldLapses(seats: SeatMap, showtimeId: ShowtimeId, seatIds: seq<SeatId>, userId: UserId, expiresAt: Minutes, now: Minutes)
    requires Reserve(seats, showtimeId, seatIds, userId, expiresAt).Success?
    ensures var swept := Sweep(Reserve(seats, showtimeId, seatIds, userId, expiresAt).value, now);
      forall id :: id in seatIds ==>
        id in swept &&
        if now > expiresAt
        then swept[id].status == Available && swept[id].bookedBy == None && swept[id].expiresAt == None
        else swept[id].status == Reserved && swept[id].bookedBy == Some(userId)
  {
    ReserveEffect(seats, showtimeId, seatIds, userId, expiresAt);
  }

  // ---------------------------------------------------------------------------------------
  // How successive requests interact.

  /** Two reservations that share a seat cannot both succeed, the later sees a RESERVED seat. */
  lemma OverlappingReservationsExclude(seats: SeatMap, showtimeId: ShowtimeId, a: seq<SeatId>, b: seq<SeatId>,
                                       u: UserId, v: UserId, expiresA: Minutes, expiresB: Minutes, shared: SeatId)
    requires Reserve(seats, showtimeId, a, u, expiresA).Success?
    requires shared in a && shared in b
    ensures Reserve(Reserve(seats, showtimeId, a, u, expiresA).value, showtimeId, b, v, expiresB) == Failure(SeatsUnavailable)
  {
    var after := Reserve(seats, showtimeId, a, u, expiresA).value;
    ReserveEffect(seats, showtimeId, a, u, expiresA);
    var k :| 0 <= k < |b| && b[k] == shared;
    assert !Reservable(after[b[k]], showtimeId);
  }

  /** Reservations of disjoint seat lists do not get in each other's way. */
  lemma DisjointReservationsBothSucceed(seats: SeatMap, showtimeId: ShowtimeId, a: seq<SeatId>, b: seq<SeatId>,
                                        u: UserId, v: UserId, expiresA: Minutes, expiresB: Minutes)
    requires Reserve(seats, showtimeId, a, u, expiresA).Success?
    requires Reserve(seats, showtimeId, b, v, expiresB).Success?
    requires forall id :: id in a ==> id !in b
    ensures Reserve(Reserve(seats, showtimeId, a, u, expiresA).value, showtimeId, b, v, expiresB).Success?
  {
    var after := Reserve(seats, showtimeId, a, u, expiresA).value;
    ReserveEffect(seats, showtimeId, a, u, expiresA);
    forall i | 0 <= i < |b| ensures b[i] in after && Reservable(after[b[i]], showtimeId) {
      assert b[i] !in a;
    }
  }

  /** The holder can book its seats before the hold ends; any other user cannot. */
  lemma HolderBooksBeforeExpiry(seats: SeatMap, showtimeId: ShowtimeId, seatIds: seq<SeatId>, u: UserId, v: UserId,
                                expiresAt: Minutes, bookingId: BookingId, now: Minutes)
    requires Reserve(seats, showtimeId, seatIds, u, expiresAt).Success?
    requires now < expiresAt
    ensures Book(Reserve(seats, showtimeId, seatIds, u, expiresAt).value, showtimeId, seatIds, u, bookingId, now).Success?
    ensures v != u && |seatIds| > 0 ==>
      Book(Reserve(seats, showtimeId, seatIds, u, expiresAt).value, showtimeId, seatIds, v, bookingId, now) == Failure(SeatsNotBookable)
  {
    var after := Reserve(seats, showtimeId, seatIds, u, expiresAt).value;
    ReserveEffect(seats, showtimeId, seatIds, u, expiresAt);
    assert AllBookable(after, showtimeId, seatIds, u, now);
    if v != u && |seatIds| > 0 {
      assert !Bookable(after[seatIds[0]], showtimeId, v, now);
    }
  }

  /** A hold that has ended blocks booking by everyone, its holder included, until the sweep
      frees it. */
  lemma EndedHoldBlocksBooking(seats: SeatMap, showtimeId: ShowtimeId, seatIds: seq<SeatId>, id: SeatId,
                               userId: UserId, bookingId: BookingId, now: Minutes)
    requires id in seatIds && id in seats
    requires seats[id].status == Reserved && seats[id].expiresAt.Some? && seats[id].expiresAt.value <= now
    ensures Book(seats, showtimeId, seatIds, userId, bookingId, now) == Failure(SeatsNotBookable)
  {
    var k :| 0 <= k < |seatIds| && seatIds[k] == id;
    assert !Bookable(seats[seatIds[k]], showtimeId, userId, now);
  }

  /** Releasing a reservation restores the seats exactly as they were before it. */
  lemma ReleaseUndoesReserve(seats: SeatMap, showtimeId: ShowtimeId, seatIds: seq<SeatId>, userId: UserId, expiresAt: Minutes)
    requires AllWellFormed(seats)
    requires Reserve(seats, showtimeId, seatIds, userId, expiresAt).Success?
    ensures Release(Reserve(seats, showtimeId, seatIds, userId, expiresAt).value, showtimeId, seatIds) == seats
  {
    var held := Reserve(seats, showtimeId, seatIds, userId, expiresAt).value;
    ReserveEffect(seats, showtimeId, seatIds, userId, expiresAt);
    var back := Release(held, showtimeId, seatIds);
    assert back.Keys == seats.Keys;
    forall id | id in seats ensures back[id] == seats[id] {
      if id in seatIds {
        assert WellFormed(seats[id]);
      }
    }
  }

  /** Once a hold has ended, the sweep leaves the collection as if the reservation had never
      been made. */
  lemma SweepUndoesLapsedReserve(seats: SeatMap, showtimeId: ShowtimeId, seatIds: seq<SeatId>, userId: UserId,
                                 expiresAt: Minutes, now: Minutes)
    requires AllWellFormed(seats)
    requires Reserve(seats, showtimeId, seatIds, userId, expiresAt).Success?
    requires expiresAt < now
    ensures Sweep(Reserve(seats, showtimeId, seatIds, userId, expiresAt).value, now) == Sweep(seats, now)
  {
    var held := Reserve(seats, showtimeId, seatIds, userId, expiresAt).value;
    ReserveEffect(seats, showtimeId, seatIds, userId, expiresAt);
    var a := Sweep(held, now);
    var b := Sweep(seats, now);
    assert a.Keys == b.Keys;
    forall id | id in seats ensures a[id] == b[id] {
      if id in seatIds {
        assert WellFormed(seats[id]);
      }
    }
  }

  /** Two AVAILABLE seats A1 (id 10) and A2 (id 11) of showtime 1. At minute 0 user 100 holds
      A1 for 5 minutes; user 200 then asks for A1 and A2 and is refused, A2 staying AVAILABLE;
      at minute 1 user 100 books A1 under booking 500. */
  lemma TwoSeatScenario()
    ensures var start := map[10 := NewSeat(1, "A", "1", Regular, 50), 11 := NewSeat(1, "A", "2", Regular, 50)];
      var held := Reserve(start, 1, [10], 100, 0 + HoldMinutes(Given(5)));
      && held.Success?
      && held.value[10].status == Reserved && held.value[10].expiresAt == Some(5)
      && Reserve(held.value, 1, [10, 11], 200, 0 + HoldMinutes(Absent)) == Failure(SeatsUnavailable)
      && held.value[11].status == Available
      && var booked := Book(held.value, 1, [10], 100, 500, 1);
         && booked.Success?
         && booked.value[10].status == Booked && booked.value[10].booking == Some(500) && booked.value[10].expiresAt == None
  {
    var start := map[10 := NewSeat(1, "A", "1", Regular, 50), 11 := NewSeat(1, "A", "2", Regular, 50)];
    assert AllReservable(start, 1, [10]);
    var held := Reserve(start, 1, [10], 100, 5);
    ReserveEffect(start, 1, [10], 100, 5);
    OverlappingReservationsExclude(start, 1, [10], [10, 11], 100, 200, 5, 15, 10);
    HolderBooksBeforeExpiry(start, 1, [10], 100, 100, 5, 500, 1);
    BookEffect(held.value, 1, [10], 100, 500, 1);
  }
}
