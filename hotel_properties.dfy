/** Properties of the hotel system's entities: serialisation round trips, the room
    count invariant kept by the room operations, the occupancy-preserving resize, and
    the reservation status transition. */
module HotelSystemProperties {
  import opened Wrappers
  import opened HotelSystem

  /** `from_dict(to_dict(h))` rebuilds every field but the creation stamp, and is
      equal to `h`. */
  lemma HotelRoundTrip(h: Hotel, now: string)
    ensures Hotel.FromDict(h.ToDict(), now) == Some(h.(createdDate := now))
    ensures Hotel.FromDict(h.ToDict(), now).value.Equals(h)
  {
  }

  lemma CustomerRoundTrip(c: Customer, now: string)
    ensures Customer.FromDict(c.ToDict(), now) == Some(c.(createdDate := now))
    ensures Customer.FromDict(c.ToDict(), now).value.Equals(c)
  {
  }

  lemma ReservationRoundTrip(r: Reservation, now: string)
    ensures Reservation.FromDict(r.ToDict(), now) == Some(r.(createdDate := now))
    ensures Reservation.FromDict(r.ToDict(), now).value.Equals(r)
  {
  }

  /** Equality looks at the key only: a hotel equals any hotel with its id. */
  lemma HotelEqualityByKey(a: Hotel, b: Hotel)
    ensures a.Equals(b) <==> a.ToDict()["hotel_id"] == b.ToDict()["hotel_id"]
    ensures a.Equals(a.(name := b.name, location := b.location, totalRooms := b.totalRooms,
                        roomsAvailable := b.roomsAvailable, pricePerRoom := b.pricePerRoom))
  {
  }

  /** Customer equality looks at the key only; it is an equivalence. */
  lemma CustomerEqualityByKey(a: Customer, b: Customer, c: Customer)
    ensures a.Equals(b) <==> a.ToDict()["customer_id"] == b.ToDict()["customer_id"]
    ensures a.Equals(a.(name := b.name, email := b.email, phone := b.phone, createdDate := b.createdDate))
    ensures a.Equals(b) ==> b.Equals(a)
    ensures a.Equals(b) && b.Equals(c) ==> a.Equals(c)
  {
  }

  /** Reservation equality looks at the key only, so a cancelled copy equals the
      original; it is an equivalence. */
  lemma ReservationEqualityByKey(a: Reservation, b: Reservation, c: Reservation)
    ensures a.Equals(b) <==> a.ToDict()["reservation_id"] == b.ToDict()["reservation_id"]
    ensures a.Equals(a.Cancel().entity)
    ensures a.Equals(a.(customerId := b.customerId, hotelId := b.hotelId, checkIn := b.checkIn,
                        checkOut := b.checkOut, status := b.status, createdDate := b.createdDate))
    ensures a.Equals(b) ==> b.Equals(a)
    ensures a.Equals(b) && b.Equals(c) ==> a.Equals(c)
  {
  }

  /** Both room operations keep `0 <= rooms_available <= total_rooms`, and so keep a
      valid hotel valid. */
  lemma RoomOperationsKeepCounts(h: Hotel)
    requires h.RoomCountsValid()
    ensures h.ReserveRoom().entity.RoomCountsValid() && h.CancelReservation().entity.RoomCountsValid()
    ensures h.Validate() ==> h.ReserveRoom().entity.Validate() && h.CancelReservation().entity.Validate()
  {
  }

  /** A successful reservation is undone by a cancellation, and the other way round. */
  lemma ReserveAndCancelAreInverse(h: Hotel)
    requires h.RoomCountsValid()
    ensures h.ReserveRoom().ok ==> h.ReserveRoom().entity.CancelReservation() == Updated(true, h)
    ensures h.CancelReservation().ok ==> h.CancelReservation().entity.ReserveRoom() == Updated(true, h)
  {
  }

  lemma {:induction false} ReserveRoomsSucceed(h: Hotel, k: nat)
    requires k <= h.roomsAvailable
    ensures ReserveRooms(h, k) == Updated(true, h.(roomsAvailable := h.roomsAvailable - k))
    decreases k
  {
    if k > 0 {
      ReserveRoomsSucceed(h.ReserveRoom().entity, k - 1);
    }
  }

  /** Reserving `rooms_available` times succeeds every time, leaves no room free, and
      the next reservation fails. */
  lemma ReserveUntilFull(h: Hotel)
    requires h.roomsAvailable >= 0
    ensures ReserveRooms(h, h.roomsAvailable).ok
    ensures ReserveRooms(h, h.roomsAvailable).entity.roomsAvailable == 0
    ensures !ReserveRooms(h, h.roomsAvailable).entity.ReserveRoom().ok
  {
    ReserveRoomsSucceed(h, h.roomsAvailable);
  }

  lemma {:induction false} CancelReservationsSucceed(h: Hotel, k: nat)
    requires k <= h.Occupied()
    ensures CancelReservations(h, k) == Updated(true, h.(roomsAvailable := h.roomsAvailable + k))
    decreases k
  {
    if k > 0 {
      CancelReservationsSucceed(h.CancelReservation().entity, k - 1);
    }
  }

  /** Cancelling once per occupied room succeeds every time, frees every room, and the
      next cancellation fails. */
  lemma CancelUntilEmpty(h: Hotel)
    requires h.Occupied() >= 0
    ensures CancelReservations(h, h.Occupied()).ok
    ensures CancelReservations(h, h.Occupied()).entity.roomsAvailable == h.totalRooms
    ensures !CancelReservations(h, h.Occupied()).entity.CancelReservation().ok
  {
    CancelReservationsSucceed(h, h.Occupied());
  }

  /** Resizing a valid hotel to a positive size no smaller than its occupancy succeeds
      and keeps it valid. */
  lemma ResizeKeepsValid(h: Hotel, t: int)
    requires h.Validate() && t > 0 && t >= h.Occupied()
    ensures var r := h.Update(None, None, Some(t), None);
      && r.ok && r.entity.Validate()
      && r.entity == h.(totalRooms := t, roomsAvailable := h.roomsAvailable + (t - h.totalRooms))
  {
  }

  /** A rejected resize leaves the name and location it was given assigned. */
  lemma RejectedResizeKeepsRename(h: Hotel, n: string, l: string, t: int)
    requires t < h.Occupied()
    ensures var r := h.Update(Some(n), Some(l), Some(t), Some(h.pricePerRoom + 1.0));
      && !r.ok
      && r.entity == h.(name := n, location := l)
  {
  }

  /** The hotel of the unit tests: 100 rooms with 50 free, resized to 120 keeps 50
      occupied; resized to 40 is refused. */
  lemma ResizeExamples()
    ensures var h := Hotel("H001", "Grand Hotel", "New York", 100, 50, 150.0, "t0");
      && h.Update(None, None, Some(120), None) == Updated(true, h.(totalRooms := 120, roomsAvailable := 70))
      && !h.Update(None, None, Some(40), None).ok
  {
  }

  /** Three reservations on a fresh 100-room hotel, then growing it to 120 rooms. */
  lemma ReserveThenGrowExample()
    ensures var h := Hotel("H001", "Grand Hotel", "New York", 100, 100, 150.0, "t0");
      var r := ReserveRooms(h, 3);
      && r.ok && r.entity.roomsAvailable == 97
      && r.entity.Update(None, None, Some(120), None).entity.roomsAvailable == 117
      && r.entity.Update(None, None, Some(120), None).entity.totalRooms == 120
  {
    var h := Hotel("H001", "Grand Hotel", "New York", 100, 100, 150.0, "t0");
    ReserveRoomsSucceed(h, 3);
  }

  /** A reservation is cancelled at most once, and a valid one stays valid. */
  lemma CancelIsFinal(r: Reservation)
    ensures r.Cancel().entity.status != Active
    ensures !r.Cancel().entity.Cancel().ok
    ensures r.Validate() ==> r.Cancel().entity.Validate()
  {
  }

  /** A reservation whose check-out follows its check-in is valid. */
  lemma ReservationDatesExample()
    ensures Reservation("R001", "C001", "H001", "2026-03-01", "2026-03-05", Active, "t0").Validate()
  {
  }

  /** Check-out on or before check-in makes a reservation invalid. */
  lemma ReservationOrderExamples()
    ensures !Reservation("R001", "C001", "H001", "2026-03-05", "2026-03-01", Active, "t0").Validate()
    ensures !Reservation("R001", "C001", "H001", "2026-03-01", "2026-03-01", Active, "t0").Validate()
  {
  }

  /** A date that does not exist makes a reservation invalid. */
  lemma ReservationBadDateExample()
    ensures !Reservation("R001", "C001", "H001", "2026-02-30", "2026-03-01", Active, "t0").Validate()
  {
  }

  /** A customer whose email has no '@' is invalid. */
  lemma CustomerEmailExample()
    ensures Customer("C001", "John Doe", "john@example.com", "555-1234", "t0").Validate()
    ensures !Customer("C001", "John Doe", "invalid-email", "555-1234", "t0").Validate()
  {
  }
}
