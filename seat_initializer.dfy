/** Materialising the seat set of a showtime from its room's layout template. */
module SeatInitializer {
  import opened Wrappers
  import opened ServiceErrors
  import opened SeatSchema
  import opened PricingDto
  import opened CatalogRecords

  /** A layout entry's type decides its classification: "vip" and "couple" are recognised,
      any other text gives a regular seat. */
  function SeatTypeOf(kind: string): SeatType
  {
    if kind == "vip" then Vip else if kind == "couple" then Couple else Regular
  }

  function PriceOf(pricing: Pricing, t: SeatType): int
  {
    match t
    case Regular => pricing.regular
    case Vip => pricing.vip
    case Couple => pricing.couple
  }

  /** The document created for one layout entry, priced from the showtime's table. */
  function MaterializeSeat(showtimeId: ShowtimeId, row: string, seat: LayoutSeat, pricing: Pricing): Seat
  {
    var t := SeatTypeOf(seat.kind);
    NewSeat(showtimeId, row, seat.number, t, PriceOf(pricing, t))
  }

  lemma PriceFollowsType(showtimeId: ShowtimeId, row: string, seat: LayoutSeat, pricing: Pricing)
    ensures var s := MaterializeSeat(showtimeId, row, seat, pricing);
      && (seat.kind == "vip" ==> s.seatType == Vip && s.price == pricing.vip)
      && (seat.kind == "couple" ==> s.seatType == Couple && s.price == pricing.couple)
      && (seat.kind != "vip" && seat.kind != "couple" ==> s.seatType == Regular && s.price == pricing.regular)
  {
  }

  /** Under a validated price table no materialised seat has a negative price. */
  lemma PriceNonNegative(showtimeId: ShowtimeId, row: string, seat: LayoutSeat, pricing: Pricing)
    requires IsValid(pricing)
    ensures MaterializeSeat(showtimeId, row, seat, pricing).price >= 0
  {
  }

  /** The (row label, entry) pairs of one row, in seat order. */
  function RowEntries(r: LayoutRow): seq<(string, LayoutSeat)>
  {
    seq(|r.seats|, k requires 0 <= k < |r.seats| => (r.row, r.seats[k]))
  }

  /** All entries of a layout, row by row and, within a row, seat by seat. */
  function Entries(layout: Layout): seq<(string, LayoutSeat)>
    decreases |layout|
  {
    if |layout| == 0 then [] else Entries(layout[..|layout| - 1]) + RowEntries(layout[|layout| - 1])
  }

  /** The number of entries in a layout: the sum of its row lengths. */
  function TotalSeats(layout: Layout): nat
    decreases |layout|
  {
    if |layout| == 0 then 0 else TotalSeats(layout[..|layout| - 1]) + |layout[|layout| - 1].seats|
  }

  function Materialize(showtimeId: ShowtimeId, entries: seq<(string, LayoutSeat)>, pricing: Pricing): seq<Seat>
  {
    seq(|entries|, k requires 0 <= k < |entries| => MaterializeSeat(showtimeId, entries[k].0, entries[k].1, pricing))
  }

  /** The seats the initialiser builds for a layout. */
  function LayoutSeats(showtimeId: ShowtimeId, layout: Layout, pricing: Pricing): seq<Seat>
  {
    Materialize(showtimeId, Entries(layout), pricing)
  }

  /** No two entries of the layout share a (row, seat number) position. */
  predicate DistinctPositions(layout: Layout)
  {
    var e := Entries(layout);
    forall a, b :: 0 <= a < b < |e| ==> e[a].0 != e[b].0 || e[a].1.number != e[b].1.number
  }

  lemma {:induction false} EntriesLength(layout: Layout)
    ensures |Entries(layout)| == TotalSeats(layout)
    decreases |layout|
  {
    if |layout| > 0 {
      EntriesLength(layout[..|layout| - 1]);
    }
  }

  /** The entries of the first i rows come first. */
  lemma {:induction false} EntriesPrefix(layout: Layout, i: nat)
    requires i <= |layout|
    ensures |Entries(layout[..i])| <= |Entries(layout)|
    ensures Entries(layout)[..|Entries(layout[..i])|] == Entries(layout[..i])
    decreases |layout|
  {
    if i == |layout| {
      assert layout[..i] == layout;
    } else {
      var init := layout[..|layout| - 1];
      EntriesPrefix(init, i);
      assert init[..i] == layout[..i];
    }
  }

  /** Seat k of row i is entry number TotalSeats(layout[..i]) + k: one entry per layout seat,
      in row-then-seat order. */
  lemma EntriesAt(layout: Layout, i: nat, k: nat)
    requires i < |layout| && k < |layout[i].seats|
    ensures TotalSeats(layout[..i]) + k < |Entries(layout)|
    ensures Entries(layout)[TotalSeats(layout[..i]) + k] == (layout[i].row, layout[i].seats[k])
  {
    var upto := layout[..i + 1];
    assert upto[..i] == layout[..i];
    assert Entries(upto) == Entries(layout[..i]) + RowEntries(layout[i]);
    EntriesLength(layout[..i]);
    EntriesPrefix(layout, i + 1);
  }

  /** The initialiser creates exactly TotalSeats(layout) documents; the one for seat k of row i
      copies the row label and seat number, is AVAILABLE, and is typed and priced by the entry. */
  lemma LayoutSeatAt(showtimeId: ShowtimeId, layout: Layout, pricing: Pricing, i: nat, k: nat)
    requires i < |layout| && k < |layout[i].seats|
    ensures |LayoutSeats(showtimeId, layout, pricing)| == TotalSeats(layout)
    ensures TotalSeats(layout[..i]) + k < TotalSeats(layout)
    ensures var s := LayoutSeats(showtimeId, layout, pricing)[TotalSeats(layout[..i]) + k];
      && s == MaterializeSeat(showtimeId, layout[i].row, layout[i].seats[k], pricing)
      && s.showtime == showtimeId && s.row == layout[i].row && s.seatNumber == layout[i].seats[k].number
      && s.status == Available
  {
    EntriesLength(layout);
    EntriesAt(layout, i, k);
  }

  /** Every materialised seat belongs to the showtime, is AVAILABLE and satisfies the
      status/field invariant; under a validated price table its price is not negative. */
  lemma LayoutSeatsFresh(showtimeId: ShowtimeId, layout: Layout, pricing: Pricing)
    ensures forall s :: s in LayoutSeats(showtimeId, layout, pricing) ==>
      s.showtime == showtimeId && s.status == Available && WellFormed(s)
    ensures IsValid(pricing) ==> forall s :: s in LayoutSeats(showtimeId, layout, pricing) ==> s.price >= 0
  {
  }

  /** An empty layout, or one whose rows list no seats, materialises nothing. */
  lemma {:induction false} EmptyRowsMaterializeNothing(showtimeId: ShowtimeId, layout: Layout, pricing: Pricing)
    requires forall i :: 0 <= i < |layout| ==> layout[i].seats == []
    ensures LayoutSeats(showtimeId, layout, pricing) == []
    decreases |layout|
  {
    if |layout| > 0 {
      EmptyRowsMaterializeNothing(showtimeId, layout[..|layout| - 1], pricing);
    }
  }

  lemma MaterializeSnoc(showtimeId: ShowtimeId, entries: seq<(string, LayoutSeat)>, e: (string, LayoutSeat), pricing: Pricing)
    ensures Materialize(showtimeId, entries + [e], pricing)
         == Materialize(showtimeId, entries, pricing) + [MaterializeSeat(showtimeId, e.0, e.1, pricing)]
  {
  }

  /** The nested loops of the initialiser: one document pushed per layout entry. */
  method MaterializeLayout(showtimeId: ShowtimeId, layout: Layout, pricing: Pricing) returns (seats: seq<Seat>)
    ensures seats == LayoutSeats(showtimeId, layout, pricing)
  {
    seats := [];
    for i := 0 to |layout|
      invariant seats == Materialize(showtimeId, Entries(layout[..i]), pricing)
    {
      var row := layout[i];
      assert layout[..i + 1][..i] == layout[..i];
      for j := 0 to |row.seats|
        invariant seats == Materialize(showtimeId, Entries(layout[..i]) + RowEntries(row)[..j], pricing)
      {
        var seat := row.seats[j];
        var seatType := Regular;
        var price := pricing.regular;
        if seat.kind == "vip" {
          seatType := Vip;
          price := pricing.vip;
        } else if seat.kind == "couple" {
          seatType := Couple;
          price := pricing.couple;
        }
        MaterializeSnoc(showtimeId, Entries(layout[..i]) + RowEntries(row)[..j], (row.row, seat), pricing);
        assert Entries(layout[..i]) + RowEntries(row)[..j + 1]
            == (Entries(layout[..i]) + RowEntries(row)[..j]) + [(row.row, seat)];
        seats := seats + [Seat(showtimeId, row.row, seat.number, seatType, price, Available, None, None, None, None)];
      }
      assert RowEntries(row)[..|row.seats|] == RowEntries(row);
    }
    assert layout[..|layout|] == layout;
  }

  /** The three lookups of the initialiser, in the order it makes them: the room, then its
      layout, then the showtime. */
  function ResolveLayout(catalog: Catalog, showtimeId: ShowtimeId, roomId: ObjectId): (r: Result<(Layout, Pricing), ServiceError>)
    ensures r == Failure(RoomNotFound) <==> roomId !in catalog.rooms
    ensures r == Failure(LayoutNotFound) <==>
      roomId in catalog.rooms && catalog.rooms[roomId].roomLayout !in catalog.roomLayouts
    ensures r == Failure(ShowtimeNotFound) <==>
      roomId in catalog.rooms && catalog.rooms[roomId].roomLayout in catalog.roomLayouts && showtimeId !in catalog.showtimes
    ensures r.Failure? ==> r.error in {RoomNotFound, LayoutNotFound, ShowtimeNotFound}
    ensures r.Success? ==>
      r.value == (catalog.roomLayouts[catalog.rooms[roomId].roomLayout].seatLayout, catalog.showtimes[showtimeId].pricing)
  {
    if roomId !in catalog.rooms then Failure(RoomNotFound)
    else if catalog.rooms[roomId].roomLayout !in catalog.roomLayouts then Failure(LayoutNotFound)
    else if showtimeId !in catalog.showtimes then Failure(ShowtimeNotFound)
    else Success((catalog.roomLayouts[catalog.rooms[roomId].roomLayout].seatLayout, catalog.showtimes[showtimeId].pricing))
  }

  /** insertMany: the new documents receive the consecutive fresh ids first, first + 1, ... */
  function InsertSeats(m: SeatMap, first: SeatId, created: seq<Seat>): SeatMap
    decreases |created|
  {
    if |created| == 0 then m else InsertSeats(m[first := created[0]], first + 1, created[1..])
  }

  /** Inserting keeps every existing document and adds exactly the new ones under fresh ids. */
  lemma {:induction false} InsertSeatsEffect(m: SeatMap, first: SeatId, created: seq<Seat>)
    requires forall id :: id in m ==> id < first
    ensures var m' := InsertSeats(m, first, created);
      && (forall id :: id in m ==> id in m' && m'[id] == m[id])
      && (forall id: SeatId :: first <= id < first + |created| ==> id in m' && m'[id] == created[id - first])
      && (forall id :: id in m' ==> id in m || first <= id < first + |created|)
    decreases |created|
  {
    if |created| > 0 {
      var m1 := m[first := created[0]];
      InsertSeatsEffect(m1, first + 1, created[1..]);
    }
  }

  /** Two documents at the same place of the same showtime. */
  predicate SamePosition(x: Seat, y: Seat)
  {
    x.showtime == y.showtime && x.row == y.row && x.seatNumber == y.seatNumber
  }

  /** Some document already occupies the position of s. */
  predicate Clashes(m: SeatMap, s: Seat)
  {
    exists id :: id in m && SamePosition(m[id], s)
  }

  /** The new documents fit under the unique index: none takes a position already occupied,
      and no two of them share a position. */
  predicate Fits(m: SeatMap, created: seq<Seat>)
  {
    && (forall i :: 0 <= i < |created| ==> !Clashes(m, created[i]))
    && (forall i, j :: 0 <= i < j < |created| ==> !SamePosition(created[i], created[j]))
  }

  /** An ordered insertMany against the unique index on (showtime, row, seatNumber): the
      documents go in one at a time under consecutive fresh ids, and the first one whose
      position is taken stops the batch with a duplicate-key error, the documents before it
      staying inserted. */
  function InsertOrdered(m: SeatMap, first: SeatId, created: seq<Seat>): (r: (SeatMap, Outcome<ServiceError>))
    ensures r.1.Fail? ==> r.1.error == DuplicateKey
    decreases |created|
  {
    if |created| == 0 then (m, Pass)
    else if Clashes(m, created[0]) then (m, Fail(DuplicateKey))
    else InsertOrdered(m[first := created[0]], first + 1, created[1..])
  }

  /** The batch goes through exactly when the documents fit, and then it is the plain insertion;
      otherwise what stays is a proper prefix of the batch. */
  lemma {:induction false} InsertOrderedOutcome(m: SeatMap, first: SeatId, created: seq<Seat>)
    requires forall id :: id in m ==> id < first
    ensures InsertOrdered(m, first, created).1.Pass? <==> Fits(m, created)
    ensures Fits(m, created) ==> InsertOrdered(m, first, created).0 == InsertSeats(m, first, created)
    ensures exists k :: (0 <= k <= |created| && InsertOrdered(m, first, created).0 == InsertSeats(m, first, created[..k])
      && (k < |created| <==> InsertOrdered(m, first, created).1.Fail?))
    decreases |created|
  {
    if |created| == 0 {
      assert created[..0] == created;
    } else if Clashes(m, created[0]) {
      assert InsertSeats(m, first, created[..0]) == m;
    } else {
      var m1 := m[first := created[0]];
      var rest := created[1..];
      InsertOrderedOutcome(m1, first + 1, rest);
      var k' :| 0 <= k' <= |rest| && InsertOrdered(m1, first + 1, rest).0 == InsertSeats(m1, first + 1, rest[..k'])
        && (k' < |rest| <==> InsertOrdered(m1, first + 1, rest).1.Fail?);
      assert created[..k' + 1][1..] == rest[..k'];
      assert InsertSeats(m, first, created[..k' + 1]) == InsertSeats(m1, first + 1, rest[..k']);
      FitsStep(m, first, created);
    }
  }

  /** Fitting a batch is fitting its head and then fitting the rest after the head is in. */
  lemma FitsStep(m: SeatMap, first: SeatId, created: seq<Seat>)
    requires forall id :: id in m ==> id < first
    requires |created| > 0
    ensures Fits(m, created) <==> !Clashes(m, created[0]) && Fits(m[first := created[0]], created[1..])
  {
    var m1 := m[first := created[0]];
    var rest := created[1..];
    if Fits(m, created) {
      forall i | 0 <= i < |rest| ensures !Clashes(m1, rest[i]) {
        assert rest[i] == created[i + 1];
        forall id | id in m1 ensures !SamePosition(m1[id], rest[i]) {
          if id == first {
            assert !SamePosition(created[0], created[i + 1]);
          } else {
            assert m1[id] == m[id];
          }
        }
      }
      forall i, j | 0 <= i < j < |rest| ensures !SamePosition(rest[i], rest[j]) {
        assert rest[i] == created[i + 1] && rest[j] == created[j + 1];
      }
    }
    if !Clashes(m, created[0]) && Fits(m1, rest) {
      forall i | 0 <= i < |created| ensures !Clashes(m, created[i]) {
        if i > 0 {
          assert created[i] == rest[i - 1];
          forall id | id in m ensures !SamePosition(m[id], created[i]) {
            assert id in m1 && m1[id] == m[id];
          }
        }
      }
      forall i, j | 0 <= i < j < |created| ensures !SamePosition(created[i], created[j]) {
        if i == 0 {
          assert created[j] == rest[j - 1];
          assert first in m1 && m1[first] == created[0];
        } else {
          assert created[i] == rest[i - 1] && created[j] == rest[j - 1];
        }
      }
    }
  }

  /** Whatever part of a batch goes in, the unique index stays satisfied. */
  lemma {:induction false} InsertOrderedKeepsUnique(m: SeatMap, first: SeatId, created: seq<Seat>)
    requires forall id :: id in m ==> id < first
    requires UniquePositions(m)
    ensures UniquePositions(InsertOrdered(m, first, created).0)
    decreases |created|
  {
    if |created| > 0 && !Clashes(m, created[0]) {
      var m1 := m[first := created[0]];
      forall a, b | a in m1 && b in m1 && a != b && m1[a].showtime == m1[b].showtime
        ensures m1[a].row != m1[b].row || m1[a].seatNumber != m1[b].seatNumber
      {
        if a == first {
          assert !SamePosition(m[b], created[0]);
        } else if b == first {
          assert !SamePosition(m[a], created[0]);
        }
      }
      InsertOrderedKeepsUnique(m1, first + 1, created[1..]);
    }
  }

  /** Whatever part of a batch of well-formed documents goes in, every stored document stays
      well formed, every id stays below the first id after the batch, and when every document
      passed the required check, every stored one still does. */
  lemma {:induction false} InsertOrderedKeepsWellFormed(m: SeatMap, first: SeatId, created: seq<Seat>)
    requires forall id :: id in m ==> id < first
    requires AllWellFormed(m)
    requires forall i :: 0 <= i < |created| ==> WellFormed(created[i])
    ensures var m' := InsertOrdered(m, first, created).0;
      && AllWellFormed(m')
      && (forall id :: id in m' ==> id < first + |created|)
      && (AllMeetRequired(m) && BatchMeetsRequired(created) ==> AllMeetRequired(m'))
    decreases |created|
  {
    if |created| > 0 && !Clashes(m, created[0]) {
      var m1 := m[first := created[0]];
      forall i | 0 <= i < |created[1..]| ensures created[1..][i] == created[i + 1] {
      }
      InsertOrderedKeepsWellFormed(m1, first + 1, created[1..]);
    }
  }

  /** Every document of the batch passes the schema's required check. */
  predicate BatchMeetsRequired(created: seq<Seat>)
  {
    forall i :: 0 <= i < |created| ==> MeetsRequired(created[i])
  }

  /** The whole insertMany call: each document is validated against the schema first, and a
      document with an empty required field fails the call with a validation error before
      anything is written; a batch that validates goes through the ordered insertion. */
  function InsertMany(m: SeatMap, first: SeatId, created: seq<Seat>): (r: (SeatMap, Outcome<ServiceError>))
    ensures !BatchMeetsRequired(created) ==> r == (m, Fail(ValidationFailed))
    ensures BatchMeetsRequired(created) && r.1.Fail? ==> r.1.error == DuplicateKey
  {
    if BatchMeetsRequired(created) then InsertOrdered(m, first, created) else (m, Fail(ValidationFailed))
  }

  /** The call succeeds exactly when the batch validates and fits under the unique index, and
      then every document is in; otherwise what stays is a proper prefix of the batch, nothing
      at all when validation refused it. */
  lemma InsertManyOutcome(m: SeatMap, first: SeatId, created: seq<Seat>)
    requires forall id :: id in m ==> id < first
    ensures InsertMany(m, first, created).1.Pass? <==> BatchMeetsRequired(created) && Fits(m, created)
    ensures BatchMeetsRequired(created) && Fits(m, created) ==> InsertMany(m, first, created).0 == InsertSeats(m, first, created)
    ensures exists k :: (0 <= k <= |created| && InsertMany(m, first, created).0 == InsertSeats(m, first, created[..k])
      && (k < |created| <==> InsertMany(m, first, created).1.Fail?))
  {
    if BatchMeetsRequired(created) {
      InsertOrderedOutcome(m, first, created);
    } else {
      assert |created| > 0;
      assert InsertSeats(m, first, created[..0]) == m;
    }
  }

  /** Every layout entry names its row and its seat number. */
  predicate RequiredFilled(layout: Layout)
  {
    var e := Entries(layout);
    forall k :: 0 <= k < |e| ==> e[k].0 != "" && e[k].1.number != ""
  }

  /** The created documents pass the required check exactly when every entry is filled in. */
  lemma LayoutSeatsMeetRequired(showtimeId: ShowtimeId, layout: Layout, pricing: Pricing)
    ensures BatchMeetsRequired(LayoutSeats(showtimeId, layout, pricing)) <==> RequiredFilled(layout)
  {
    var e := Entries(layout);
    var created := LayoutSeats(showtimeId, layout, pricing);
    assert forall k :: 0 <= k < |e| ==> created[k].row == e[k].0 && created[k].seatNumber == e[k].1.number;
  }

  /** Materialising a filled-in layout with distinct positions for a showtime that has no seats
      yet fits under the unique index, so the whole batch goes in. */
  lemma FirstInitializationFits(m: SeatMap, first: SeatId, showtimeId: ShowtimeId, layout: Layout, pricing: Pricing)
    requires forall id :: id in m ==> id < first && m[id].showtime != showtimeId
    requires DistinctPositions(layout) && RequiredFilled(layout)
    ensures InsertMany(m, first, LayoutSeats(showtimeId, layout, pricing))
         == (InsertSeats(m, first, LayoutSeats(showtimeId, layout, pricing)), Pass)
  {
    var created := LayoutSeats(showtimeId, layout, pricing);
    LayoutSeatsFresh(showtimeId, layout, pricing);
    LayoutSeatsMeetRequired(showtimeId, layout, pricing);
    forall i | 0 <= i < |created| ensures !Clashes(m, created[i]) {
      assert created[i] in created;
    }
    forall i, j | 0 <= i < j < |created| ensures !SamePosition(created[i], created[j]) {
      CreatedPositionsDistinct(showtimeId, layout, pricing, i, j);
    }
    InsertOrderedOutcome(m, first, created);
  }

  /** A layout entry with an empty row label or seat number makes initialisation fail with a
      validation error, and no document of the batch goes in. */
  lemma UnfilledLayoutRefused(m: SeatMap, first: SeatId, showtimeId: ShowtimeId, layout: Layout, pricing: Pricing)
    requires !RequiredFilled(layout)
    ensures InsertMany(m, first, LayoutSeats(showtimeId, layout, pricing)) == (m, Fail(ValidationFailed))
  {
    LayoutSeatsMeetRequired(showtimeId, layout, pricing);
  }

  /** Initialising a showtime a second time, with a layout of at least one seat, is refused by
      the unique index before any document goes in. */
  lemma SecondInitializationRefused(m: SeatMap, first: SeatId, showtimeId: ShowtimeId, layout: Layout, pricing: Pricing)
    requires forall id :: id in m ==> id < first
    requires AllMeetRequired(m)
    requires |LayoutSeats(showtimeId, layout, pricing)| > 0
    requires forall s :: s in LayoutSeats(showtimeId, layout, pricing) ==> Clashes(m, s)
    ensures InsertMany(m, first, LayoutSeats(showtimeId, layout, pricing)) == (m, Fail(DuplicateKey))
  {
    var created := LayoutSeats(showtimeId, layout, pricing);
    forall i | 0 <= i < |created| ensures MeetsRequired(created[i]) {
      assert created[i] in created;
      var id :| id in m && SamePosition(m[id], created[i]);
    }
    assert created[0] in created;
  }

  lemma CreatedPositionsDistinct(showtimeId: ShowtimeId, layout: Layout, pricing: Pricing, x: nat, y: nat)
    requires DistinctPositions(layout)
    requires x != y && x < |LayoutSeats(showtimeId, layout, pricing)| && y < |LayoutSeats(showtimeId, layout, pricing)|
    ensures var created := LayoutSeats(showtimeId, layout, pricing);
      created[x].row != created[y].row || created[x].seatNumber != created[y].seatNumber
  {
    var e := Entries(layout);
    if x < y {
      assert e[x].0 != e[y].0 || e[x].1.number != e[y].1.number;
    } else {
      assert e[y].0 != e[x].0 || e[y].1.number != e[x].1.number;
    }
  }
}
