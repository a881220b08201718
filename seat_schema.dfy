/** The seat record of a showtime, and the invariants the seat collection keeps. */
module SeatSchema {
  import opened Wrappers

  /** Database ObjectIds, modelled as natural numbers. */
  type ObjectId = nat
  type SeatId = ObjectId
  type ShowtimeId = ObjectId
  type UserId = ObjectId
  type BookingId = ObjectId

  /** Instants, in whole minutes. */
  type Minutes = int

  datatype SeatType = Regular | Vip | Couple

  datatype SeatStatus = Available | Reserved | Booked

  const DefaultStatus: SeatStatus := Available

  /** One seat document. The first five fields are required; status has a default; the
      last four fields are optional. */
  datatype Seat = Seat(
    showtime: ShowtimeId,
    row: string,
    seatNumber: string,
    seatType: SeatType,
    price: int,
    status: SeatStatus,
    bookedBy: Option<UserId>,
    booking: Option<BookingId>,
    bookedAt: Option<Minutes>,
    expiresAt: Option<Minutes>)

  /** Which optional fields a seat carries is decided by its status: a hold expiry exactly
      when RESERVED, a booking reference and a booking time exactly when BOOKED, and a
      holder exactly when not AVAILABLE. */
  predicate WellFormed(s: Seat)
  {
    && (s.expiresAt.Some? <==> s.status == Reserved)
    && (s.booking.Some? <==> s.status == Booked)
    && (s.bookedAt.Some? <==> s.status == Booked)
    && (s.bookedBy.Some? <==> s.status != Available)
  }

  /** The schema's required check, as the document validator applies it before a write: a
      required string field must not be empty. The other required fields always hold a value
      here. */
  predicate MeetsRequired(s: Seat)
  {
    s.row != "" && s.seatNumber != ""
  }

  /** A document built from its required fields alone: status takes its default and no
      optional field is present. */
  function NewSeat(showtime: ShowtimeId, row: string, seatNumber: string, seatType: SeatType, price: int): (s: Seat)
    ensures s.showtime == showtime && s.row == row && s.seatNumber == seatNumber
    ensures s.seatType == seatType && s.price == price
    ensures s.status == Available && WellFormed(s)
  {
    Seat(showtime, row, seatNumber, seatType, price, DefaultStatus, None, None, None, None)
  }

  /** The fields fixed when a seat is created: its position and its classification. */
  datatype Identity = Identity(showtime: ShowtimeId, row: string, seatNumber: string, seatType: SeatType, price: int)

  function IdentityOf(s: Seat): Identity
  {
    Identity(s.showtime, s.row, s.seatNumber, s.seatType, s.price)
  }

  /** The seat collection, keyed by seat id. */
  type SeatMap = map<SeatId, Seat>

  predicate AllWellFormed(m: SeatMap)
  {
    forall id :: id in m ==> WellFormed(m[id])
  }

  predicate AllMeetRequired(m: SeatMap)
  {
    forall id :: id in m ==> MeetsRequired(m[id])
  }

  /** The unique index on (showtime, row, seatNumber). */
  predicate UniquePositions(m: SeatMap)
  {
    forall a, b ::
      a in m && b in m && a != b && m[a].showtime == m[b].showtime ==>
        m[a].row != m[b].row || m[a].seatNumber != m[b].seatNumber
  }

  /** The same seats, each keeping its position and classification. */
  predicate SameIdentities(m: SeatMap, m': SeatMap)
  {
    m.Keys == m'.Keys && forall id :: id in m ==> IdentityOf(m'[id]) == IdentityOf(m[id])
  }

  /** An update that reassigns no position cannot break the unique index, nor empty a
      required field. */
  lemma SameIdentitiesKeepUnique(m: SeatMap, m': SeatMap)
    requires SameIdentities(m, m')
    ensures UniquePositions(m) ==> UniquePositions(m')
    ensures AllMeetRequired(m) ==> AllMeetRequired(m')
  {
    forall id | id in m' ensures m'[id].row == m[id].row && m'[id].seatNumber == m[id].seatNumber {
      assert IdentityOf(m'[id]) == IdentityOf(m[id]);
    }
    if UniquePositions(m) {
      forall a, b | a in m' && b in m' && a != b && m'[a].showtime == m'[b].showtime
        ensures m'[a].row != m'[b].row || m'[a].seatNumber != m'[b].seatNumber
      {
        assert IdentityOf(m'[a]) == IdentityOf(m[a]) && IdentityOf(m'[b]) == IdentityOf(m[b]);
      }
    }
  }

  /** The invariant of the stored collection: every id lies below the next id to hand out,
      each document carries the optional fields its status calls for, the unique index holds,
      and every document passed the required check when it was written. */
  predicate StoreInvariant(m: SeatMap, nextId: nat)
  {
    && (forall id :: id in m ==> id < nextId)
    && AllWellFormed(m)
    && UniquePositions(m)
    && AllMeetRequired(m)
  }

  /** An update that keeps every document well formed and reassigns no position keeps the
      invariant. */
  lemma SameIdentitiesKeepInvariant(m: SeatMap, m': SeatMap, nextId: nat)
    requires StoreInvariant(m, nextId) && SameIdentities(m, m') && AllWellFormed(m')
    ensures StoreInvariant(m', nextId)
  {
    SameIdentitiesKeepUnique(m, m');
  }
}
