/** The seat side of the showtimes service: the seat collection it owns, the operations that
    change it, and the two listing queries over it. */
module Showtimes {
  import opened Wrappers
  import opened ServiceErrors
  import opened SeatSchema
  import opened CatalogRecords
  import opened ReserveSeatsDto
  import opened SeatInitializer
  import opened SeatQueries
  import opened Reservations

  class ShowtimesService {
    /** The seat collection. */
    var seats: SeatMap
    /** The id the next inserted document receives; every stored id is below it. */
    var nextId: nat

    /** The collection keeps the store invariant: ids already handed out, status fields in
        order, the unique index on (showtime, row, seatNumber), required fields filled. */
    ghost predicate Valid()
      reads this
    {
      StoreInvariant(seats, nextId)
    }

    constructor ()
      ensures Valid()
      ensures seats == map[] && nextId == 0
    {
      seats := map[];
      nextId := 0;
    }

    /** initializeSeatsForShowtime: looks up the room, its layout and the showtime, in that
        order, materialises one AVAILABLE seat per layout entry, and inserts them when there is
        at least one. There is no check for seats that already exist: the unique index refuses
        the first clashing document, and the schema's validation refuses the whole batch when an
        entry has an empty row label or seat number. */
    method InitializeSeatsForShowtime(catalog: Catalog, showtimeId: ShowtimeId, roomId: ObjectId)
      returns (r: Outcome<ServiceError>)
      requires Valid()
      modifies this
      ensures Valid()
      ensures var resolved := ResolveLayout(catalog, showtimeId, roomId);
        && (resolved.Failure? ==> r == Fail(resolved.error) && seats == old(seats) && nextId == old(nextId))
        && (resolved.Success? ==>
              var created := LayoutSeats(showtimeId, resolved.value.0, resolved.value.1);
              && (seats, r) == InsertMany(old(seats), old(nextId), created)
              && nextId == old(nextId) + |created|)
    {
      if roomId !in catalog.rooms {
        return Fail(RoomNotFound);
      }
      var room := catalog.rooms[roomId];
      if room.roomLayout !in catalog.roomLayouts {
        return Fail(LayoutNotFound);
      }
      var roomLayout := catalog.roomLayouts[room.roomLayout];
      if showtimeId !in catalog.showtimes {
        return Fail(ShowtimeNotFound);
      }
      var showtime := catalog.showtimes[showtimeId];

      var created := MaterializeLayout(showtimeId, roomLayout.seatLayout, showtime.pricing);
      r := Pass;
      if |created| > 0 {
        LayoutSeatsFresh(showtimeId, roomLayout.seatLayout, showtime.pricing);
        assert forall i :: 0 <= i < |created| ==> created[i] in created;
        if BatchMeetsRequired(created) {
          InsertOrderedKeepsWellFormed(seats, nextId, created);
          InsertOrderedKeepsUnique(seats, nextId, created);
          seats, r := InsertOrdered(seats, nextId, created).0, InsertOrdered(seats, nextId, created).1;
        } else {
          r := Fail(ValidationFailed);
        }
        nextId := nextId + |created|;
      }
    }

    /** reserveSeats: the guarding find, the count comparison and the updateMany, then the
        final find of the requested documents as they now stand. The hold lasts the minutes
        the duration field gives: 15 when the caller leaves it out, none when it is null. */
    method ReserveSeats(showtimeId: ShowtimeId, seatIds: seq<SeatId>, userId: UserId,
                        now: Minutes, expiresInMinutes: ExpiresInField := Absent)
      returns (r: Result<SeatMap, ServiceError>)
      requires Valid()
      modifies this
      ensures Valid() && nextId == old(nextId)
      ensures var outcome := Reserve(old(seats), showtimeId, seatIds, userId, now + HoldMinutes(expiresInMinutes));
        && (outcome.Failure? ==> r == Failure(outcome.error) && seats == old(seats))
        && (outcome.Success? ==> seats == outcome.value && r == Success(Selection(seats, seatIds)))
    {
      var found := ReservableFound(seats, showtimeId, seatIds);
      if |found| != |seatIds| {
        return Failure(SeatsUnavailable);
      }
      assert Reserve(seats, showtimeId, seatIds, userId, now + HoldMinutes(expiresInMinutes))
          == Success(HoldAll(seats, seatIds, userId, now + HoldMinutes(expiresInMinutes)));
      ReserveKeepsInvariant(seats, showtimeId, seatIds, userId, now + HoldMinutes(expiresInMinutes));
      SameIdentitiesKeepInvariant(seats, HoldAll(seats, seatIds, userId, now + HoldMinutes(expiresInMinutes)), nextId);
      seats := HoldAll(seats, seatIds, userId, now + HoldMinutes(expiresInMinutes));
      r := Success(Selection(seats, seatIds));
    }

    /** bookSeats: as reserveSeats, with the booking guard and the booking update. */
    method BookSeats(showtimeId: ShowtimeId, seatIds: seq<SeatId>, userId: UserId, bookingId: BookingId, now: Minutes)
      returns (r: Result<SeatMap, ServiceError>)
      requires Valid()
      modifies this
      ensures Valid() && nextId == old(nextId)
      ensures var outcome := Book(old(seats), showtimeId, seatIds, userId, bookingId, now);
        && (outcome.Failure? ==> r == Failure(outcome.error) && seats == old(seats))
        && (outcome.Success? ==> seats == outcome.value && r == Success(Selection(seats, seatIds)))
    {
      var found := BookableFound(seats, showtimeId, seatIds, userId, now);
      if |found| != |seatIds| {
        return Failure(SeatsNotBookable);
      }
      assert Book(seats, showtimeId, seatIds, userId, bookingId, now) == Success(SellAll(seats, seatIds, userId, bookingId, now));
      BookKeepsInvariant(seats, showtimeId, seatIds, userId, bookingId, now);
      SameIdentitiesKeepInvariant(seats, SellAll(seats, seatIds, userId, bookingId, now), nextId);
      seats := SellAll(seats, seatIds, userId, bookingId, now);
      r := Success(Selection(seats, seatIds));
    }

    /** releaseReservedSeats: one unguarded update. */
    method ReleaseReservedSeats(showtimeId: ShowtimeId, seatIds: seq<SeatId>)
      requires Valid()
      modifies this
      ensures Valid() && nextId == old(nextId)
      ensures seats == Release(old(seats), showtimeId, seatIds)
    {
      ReleaseKeepsInvariant(seats, showtimeId, seatIds);
      SameIdentitiesKeepInvariant(seats, Release(seats, showtimeId, seatIds), nextId);
      seats := Release(seats, showtimeId, seatIds);
    }

    /** releaseExpiredReservations, at the instant now. */
    method ReleaseExpiredReservations(now: Minutes)
      requires Valid()
      modifies this
      ensures Valid() && nextId == old(nextId)
      ensures seats == Sweep(old(seats), now)
    {
      SweepKeepsInvariant(seats, now);
      SameIdentitiesKeepInvariant(seats, Sweep(seats, now), nextId);
      seats := Sweep(seats, now);
    }

    /** getSeatsByShowtime: every seat of the showtime, sorted by row and then seat number,
        one entry per document. */
    function GetSeatsByShowtime(showtimeId: ShowtimeId): (r: seq<Seat>)
      reads this
      requires Valid()
      ensures SortedByPosition(r)
      ensures forall s :: s in r <==> exists id :: id in seats && seats[id] == s && s.showtime == showtimeId
      ensures |r| == |set id | id in seats && seats[id].showtime == showtimeId|
    {
      SortedListing(seats, showtimeId, false, nextId);
      assert (set id | id in seats && Selected(seats[id], showtimeId, false))
          == (set id | id in seats && seats[id].showtime == showtimeId);
      SortByPosition(Listing(seats, showtimeId, false, nextId))
    }

    /** getAvailableSeats: the AVAILABLE seats of the showtime, in the same order. */
    function GetAvailableSeats(showtimeId: ShowtimeId): (r: seq<Seat>)
      reads this
      requires Valid()
      ensures r == AvailableOnly(GetSeatsByShowtime(showtimeId))
      ensures SortedByPosition(r)
      ensures forall s :: s in r <==>
        exists id :: id in seats && seats[id] == s && s.showtime == showtimeId && s.status == Available
    {
      ListingAvailable(seats, showtimeId, nextId);
      AvailableOnlySort(Listing(seats, showtimeId, false, nextId));
      SortedListing(seats, showtimeId, true, nextId);
      SortByPosition(Listing(seats, showtimeId, true, nextId))
    }
  }
}
