/** The read side: listing a showtime's seats (all, or the AVAILABLE ones) sorted by row, then
    seat number, and reading a showtime's price table. */
module SeatQueries {
  import opened Wrappers
  import opened ServiceErrors
  import opened SeatSchema
  import opened PricingDto
  import opened CatalogRecords

  /** Ascending string order, comparing character by character; a prefix comes first. Row
      labels and seat numbers are both strings, so seat "10" sorts before seat "2". */
  predicate StrLe(a: string, b: string)
    decreases |a|
  {
    |a| == 0 || (|b| > 0 && (a[0] < b[0] || (a[0] == b[0] && StrLe(a[1..], b[1..]))))
  }

  lemma {:induction false} StrLeTotal(a: string, b: string)
    ensures StrLe(a, b) || StrLe(b, a)
    decreases |a|
  {
    if |a| > 0 && |b| > 0 && a[0] == b[0] { StrLeTotal(a[1..], b[1..]); }
  }

  lemma {:induction false} StrLeAntisymmetric(a: string, b: string)
    requires StrLe(a, b) && StrLe(b, a)
    ensures a == b
    decreases |a|
  {
    if |a| > 0 {
      StrLeAntisymmetric(a[1..], b[1..]);
      assert a == [a[0]] + a[1..] && b == [b[0]] + b[1..];
    }
  }

  lemma {:induction false} StrLeTransitive(a: string, b: string, c: string)
    requires StrLe(a, b) && StrLe(b, c)
    ensures StrLe(a, c)
    decreases |a|
  {
    if |a| > 0 && a[0] == b[0] && b[0] == c[0] {
      StrLeTransitive(a[1..], b[1..], c[1..]);
    }
  }

  /** The sort key { row: 1, seatNumber: 1 }. */
  predicate PositionLe(x: Seat, y: Seat)
  {
    if x.row == y.row then StrLe(x.seatNumber, y.seatNumber) else StrLe(x.row, y.row)
  }

  lemma PositionLeTotal(x: Seat, y: Seat)
    ensures PositionLe(x, y) || PositionLe(y, x)
  {
    StrLeTotal(x.row, y.row);
    StrLeTotal(x.seatNumber, y.seatNumber);
  }

  lemma PositionLeTransitive(x: Seat, y: Seat, z: Seat)
    requires PositionLe(x, y) && PositionLe(y, z)
    ensures PositionLe(x, z)
  {
    if x.row == y.row && y.row == z.row {
      StrLeTransitive(x.seatNumber, y.seatNumber, z.seatNumber);
    } else if x.row != y.row && y.row != z.row {
      StrLeTransitive(x.row, y.row, z.row);
      if x.row == z.row { StrLeAntisymmetric(y.row, z.row); }
    }
  }

  predicate SortedByPosition(s: seq<Seat>)
  {
    forall i, j :: 0 <= i < j < |s| ==> PositionLe(s[i], s[j])
  }

  /** Places x before the first element it does not follow. */
  function InsertByPosition(x: Seat, ys: seq<Seat>): (r: seq<Seat>)
    ensures multiset(r) == multiset(ys) + multiset{x}
    ensures |r| == |ys| + 1
  {
    if |ys| == 0 then [x]
    else if PositionLe(x, ys[0]) then [x] + ys
    else
      assert ys == [ys[0]] + ys[1..];
      [ys[0]] + InsertByPosition(x, ys[1..])
  }

  /** Insertion sort; stable, so seats with equal keys keep their listing order. */
  function SortByPosition(xs: seq<Seat>): (r: seq<Seat>)
    ensures multiset(r) == multiset(xs)
  {
    if |xs| == 0 then []
    else
      assert xs == [xs[0]] + xs[1..];
      InsertByPosition(xs[0], SortByPosition(xs[1..]))
  }

  /** Inserting adds x and keeps every other member. */
  lemma InsertMembers(x: Seat, ys: seq<Seat>)
    ensures forall z :: z in InsertByPosition(x, ys) <==> z == x || z in ys
  {
    var r := InsertByPosition(x, ys);
    forall z ensures z in r <==> z == x || z in ys {
      assert z in r <==> z in multiset(r);
      assert z in ys <==> z in multiset(ys);
    }
  }

  /** A sorted list with an element before it that precedes its first element. */
  lemma SortedCons(x: Seat, ys: seq<Seat>)
    requires SortedByPosition(ys)
    requires forall k :: 0 <= k < |ys| ==> PositionLe(x, ys[k])
    ensures SortedByPosition([x] + ys)
  {
    var r := [x] + ys;
    forall i, j | 0 <= i < j < |r| ensures PositionLe(r[i], r[j]) {
      assert r[j] == ys[j - 1];
      if i > 0 { assert r[i] == ys[i - 1]; }
    }
  }

  lemma {:induction false} InsertSorted(x: Seat, ys: seq<Seat>)
    requires SortedByPosition(ys)
    ensures SortedByPosition(InsertByPosition(x, ys))
  {
    if |ys| == 0 {
    } else if PositionLe(x, ys[0]) {
      forall k | 0 <= k < |ys| ensures PositionLe(x, ys[k]) {
        if k > 0 { PositionLeTransitive(x, ys[0], ys[k]); }
      }
      SortedCons(x, ys);
    } else {
      var rest := ys[1..];
      var tail := InsertByPosition(x, rest);
      assert SortedByPosition(rest);
      InsertSorted(x, rest);
      InsertMembers(x, rest);
      PositionLeTotal(x, ys[0]);
      forall k | 0 <= k < |tail| ensures PositionLe(ys[0], tail[k]) {
        assert tail[k] in tail;
        if tail[k] != x {
          var j :| 0 <= j < |rest| && rest[j] == tail[k];
          assert ys[j + 1] == tail[k];
        }
      }
      SortedCons(ys[0], tail);
    }
  }

  lemma {:induction false} SortSorted(xs: seq<Seat>)
    ensures SortedByPosition(SortByPosition(xs))
  {
    if |xs| > 0 {
      SortSorted(xs[1..]);
      InsertSorted(xs[0], SortByPosition(xs[1..]));
    }
  }

  /** The seat filter of the two listing queries. */
  predicate Selected(s: Seat, showtimeId: ShowtimeId, availableOnly: bool)
  {
    s.showtime == showtimeId && (availableOnly ==> s.status == Available)
  }

  /** The documents whose ids are below n that match the filter, in id order. */
  function Listing(seats: SeatMap, showtimeId: ShowtimeId, availableOnly: bool, n: nat): seq<Seat>
  {
    if n == 0 then []
    else
      Listing(seats, showtimeId, availableOnly, n - 1)
      + (if n - 1 in seats && Selected(seats[n - 1], showtimeId, availableOnly) then [seats[n - 1]] else [])
  }

  function MatchingIds(seats: SeatMap, showtimeId: ShowtimeId, availableOnly: bool, n: nat): set<SeatId>
  {
    set id | id in seats && id < n && Selected(seats[id], showtimeId, availableOnly)
  }

  /** A listing holds exactly the documents of the matching ids ... */
  lemma {:induction false} ListingMembers(seats: SeatMap, showtimeId: ShowtimeId, availableOnly: bool, n: nat)
    ensures forall s :: s in Listing(seats, showtimeId, availableOnly, n) <==>
      exists id :: id in seats && id < n && seats[id] == s && Selected(s, showtimeId, availableOnly)
  {
    if n > 0 {
      ListingMembers(seats, showtimeId, availableOnly, n - 1);
      var before := Listing(seats, showtimeId, availableOnly, n - 1);
      if n - 1 in seats && Selected(seats[n - 1], showtimeId, availableOnly) {
        assert Listing(seats, showtimeId, availableOnly, n) == before + [seats[n - 1]];
        forall s | s in before + [seats[n - 1]]
          ensures exists id :: id in seats && id < n && seats[id] == s && Selected(s, showtimeId, availableOnly)
        {
          if s !in before { assert s == seats[n - 1]; }
        }
      } else {
        assert Listing(seats, showtimeId, availableOnly, n) == before;
      }
    }
  }

  /** ... and one document per matching id. */
  lemma {:induction false} ListingCount(seats: SeatMap, showtimeId: ShowtimeId, availableOnly: bool, n: nat)
    ensures |Listing(seats, showtimeId, availableOnly, n)| == |MatchingIds(seats, showtimeId, availableOnly, n)|
  {
    if n > 0 {
      ListingCount(seats, showtimeId, availableOnly, n - 1);
      var before := MatchingIds(seats, showtimeId, availableOnly, n - 1);
      if n - 1 in seats && Selected(seats[n - 1], showtimeId, availableOnly) {
        assert MatchingIds(seats, showtimeId, availableOnly, n) == before + {n - 1};
      } else {
        assert MatchingIds(seats, showtimeId, availableOnly, n) == before;
      }
    }
  }

  /** Sorting keeps exactly the members. */
  lemma SortSameMembers(xs: seq<Seat>)
    ensures forall s :: s in SortByPosition(xs) <==> s in xs
  {
    forall s ensures s in SortByPosition(xs) <==> s in xs {
      assert s in xs <==> s in multiset(xs);
      assert s in SortByPosition(xs) <==> s in multiset(SortByPosition(xs));
    }
  }

  /** When every stored id is below n, the sorted listing over ids below n is sorted and holds
      exactly one entry per matching document of the whole collection. */
  lemma SortedListing(seats: SeatMap, showtimeId: ShowtimeId, availableOnly: bool, n: nat)
    requires forall id :: id in seats ==> id < n
    ensures var r := SortByPosition(Listing(seats, showtimeId, availableOnly, n));
      && SortedByPosition(r)
      && (forall s :: s in r <==> exists id :: id in seats && seats[id] == s && Selected(s, showtimeId, availableOnly))
      && |r| == |set id | id in seats && Selected(seats[id], showtimeId, availableOnly)|
  {
    var listed := Listing(seats, showtimeId, availableOnly, n);
    SortSorted(listed);
    SortSameMembers(listed);
    ListingMembers(seats, showtimeId, availableOnly, n);
    ListingCount(seats, showtimeId, availableOnly, n);
    assert MatchingIds(seats, showtimeId, availableOnly, n) == set id | id in seats && Selected(seats[id], showtimeId, availableOnly);
  }

  /** The AVAILABLE seats of a list, in their order. */
  function AvailableOnly(xs: seq<Seat>): seq<Seat>
  {
    if |xs| == 0 then []
    else (if xs[0].status == Available then [xs[0]] else []) + AvailableOnly(xs[1..])
  }

  /** The filtered list keeps only AVAILABLE seats of the original list. */
  lemma {:induction false} AvailableOnlySubset(xs: seq<Seat>)
    ensures forall s :: s in AvailableOnly(xs) ==> s in xs && s.status == Available
  {
    if |xs| > 0 {
      AvailableOnlySubset(xs[1..]);
    }
  }

  lemma {:induction false} AvailableOnlyAppend(a: seq<Seat>, b: seq<Seat>)
    ensures AvailableOnly(a + b) == AvailableOnly(a) + AvailableOnly(b)
  {
    if |a| == 0 {
      assert a + b == b;
    } else {
      assert a + b == [a[0]] + (a[1..] + b);
      assert a == [a[0]] + a[1..];
      AvailableOnlyCons(a[0], a[1..] + b);
      AvailableOnlyCons(a[0], a[1..]);
      AvailableOnlyAppend(a[1..], b);
    }
  }

  lemma {:induction false} ListingAvailable(seats: SeatMap, showtimeId: ShowtimeId, n: nat)
    ensures Listing(seats, showtimeId, true, n) == AvailableOnly(Listing(seats, showtimeId, false, n))
  {
    if n > 0 {
      ListingAvailable(seats, showtimeId, n - 1);
      var last := if n - 1 in seats && Selected(seats[n - 1], showtimeId, false) then [seats[n - 1]] else [];
      AvailableOnlyAppend(Listing(seats, showtimeId, false, n - 1), last);
      if |last| == 1 { assert last[1..] == []; }
    }
  }

  lemma AvailableOnlyCons(x: Seat, ys: seq<Seat>)
    ensures AvailableOnly([x] + ys) == (if x.status == Available then [x] else []) + AvailableOnly(ys)
  {
    assert ([x] + ys)[0] == x;
    assert ([x] + ys)[1..] == ys;
  }

  /** Inserting x in front of a sorted list it precedes, then filtering. */
  lemma InsertFrontAvailable(x: Seat, ys: seq<Seat>)
    requires SortedByPosition(ys) && |ys| > 0 && PositionLe(x, ys[0])
    ensures AvailableOnly(InsertByPosition(x, ys))
         == if x.status == Available then InsertByPosition(x, AvailableOnly(ys)) else AvailableOnly(ys)
  {
    AvailableOnlyCons(x, ys);
    var f := AvailableOnly(ys);
    if x.status == Available && |f| > 0 {
      AvailableOnlySubset(ys);
      assert f[0] in ys;
      var j :| 0 <= j < |ys| && ys[j] == f[0];
      if j > 0 { PositionLeTransitive(x, ys[0], ys[j]); }
      assert PositionLe(x, f[0]);
    }
  }

  /** Filtering commutes with inserting into a sorted list. */
  lemma {:induction false} AvailableOnlyInsert(x: Seat, ys: seq<Seat>)
    requires SortedByPosition(ys)
    ensures AvailableOnly(InsertByPosition(x, ys))
         == if x.status == Available then InsertByPosition(x, AvailableOnly(ys)) else AvailableOnly(ys)
  {
    if |ys| == 0 {
      AvailableOnlyCons(x, []);
      assert [x] + [] == [x];
    } else if PositionLe(x, ys[0]) {
      InsertFrontAvailable(x, ys);
    } else {
      var tail := ys[1..];
      assert ys == [ys[0]] + tail;
      assert SortedByPosition(tail);
      AvailableOnlyInsert(x, tail);
      AvailableOnlyCons(ys[0], InsertByPosition(x, tail));
      AvailableOnlyCons(ys[0], tail);
      var inserted := InsertByPosition(x, tail);
      assert InsertByPosition(x, ys) == [ys[0]] + inserted;
      if ys[0].status == Available {
        var f := [ys[0]] + AvailableOnly(tail);
        assert AvailableOnly(ys) == f;
        assert f[0] == ys[0] && f[1..] == AvailableOnly(tail);
        if x.status == Available {
          assert InsertByPosition(x, f) == [ys[0]] + InsertByPosition(x, AvailableOnly(tail));
        }
      } else {
        assert AvailableOnly(ys) == AvailableOnly(tail);
      }
    }
  }

  lemma SortCons(x: Seat, ys: seq<Seat>)
    ensures SortByPosition([x] + ys) == InsertByPosition(x, SortByPosition(ys))
  {
    assert ([x] + ys)[0] == x;
    assert ([x] + ys)[1..] == ys;
  }

  /** Keeping the AVAILABLE seats commutes with sorting. */
  lemma {:induction false} AvailableOnlySort(xs: seq<Seat>)
    ensures AvailableOnly(SortByPosition(xs)) == SortByPosition(AvailableOnly(xs))
  {
    if |xs| > 0 {
      var x, tail := xs[0], xs[1..];
      assert xs == [x] + tail;
      SortCons(x, tail);
      AvailableOnlySort(tail);
      SortSorted(tail);
      AvailableOnlyInsert(x, SortByPosition(tail));
      AvailableOnlyCons(x, tail);
      if x.status == Available {
        SortCons(x, AvailableOnly(tail));
      } else {
        assert AvailableOnly(xs) == AvailableOnly(tail);
      }
    }
  }

  /** getSeatPricing: the stored price table of the showtime, or not-found. */
  function GetSeatPricing(catalog: Catalog, showtimeId: ShowtimeId): (r: Result<Pricing, ServiceError>)
    ensures r.Success? <==> showtimeId in catalog.showtimes
    ensures r.Success? ==> r.value == catalog.showtimes[showtimeId].pricing
    ensures r.Failure? ==> r.error == ShowtimeNotFound
  {
    if showtimeId in catalog.showtimes then Success(catalog.showtimes[showtimeId].pricing)
    else Failure(ShowtimeNotFound)
  }
}
