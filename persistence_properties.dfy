/** Properties of the persistence engine's queries and of what its updates can do to
    a collection. */
module PersistenceProperties {
  import opened Wrappers
  import opened Records
  import opened HotelSystem
  import opened Persistence
  import HotelSystemProperties

  /** A query result holds exactly the decodings of stored records. */
  lemma {:induction false} CollectMembers<T>(records: seq<Record>, decode: Record -> Option<T>)
    ensures forall e :: e in Collect(records, decode) ==>
              exists i :: 0 <= i < |records| && decode(records[i]) == Some(e)
    ensures forall i :: 0 <= i < |records| && decode(records[i]).Some? ==>
              decode(records[i]).value in Collect(records, decode)
  {
    if records != [] {
      var init := records[..|records| - 1];
      CollectMembers(init, decode);
      forall i | 0 <= i < |records| && decode(records[i]).Some?
        ensures decode(records[i]).value in Collect(records, decode)
      {
        if i < |init| {
          assert init[i] == records[i];
        }
      }
      forall e | e in Collect(records, decode)
        ensures exists i :: 0 <= i < |records| && decode(records[i]) == Some(e)
      {
        if e in Collect(init, decode) {
          var i :| 0 <= i < |init| && decode(init[i]) == Some(e);
          assert records[i] == init[i];
        } else {
          assert decode(records[|records| - 1]) == Some(e);
        }
      }
    }
  }

  /** Querying a concatenation queries each part and keeps them in order: results come
      in stored order. */
  lemma {:induction false} CollectAppend<T>(a: seq<Record>, b: seq<Record>, decode: Record -> Option<T>)
    ensures Collect(a + b, decode) == Collect(a, decode) + Collect(b, decode)
  {
    if b == [] {
      assert a + b == a;
    } else {
      var init := b[..|b| - 1];
      CollectAppend(a, init, decode);
      assert (a + b)[..|a + b| - 1] == a + init;
    }
  }

  /** `get_all_hotels` returns only valid hotels, and every stored record that decodes
      to a valid hotel is among them. */
  lemma AllHotelsValid(records: seq<Record>, now: string)
    ensures forall h :: h in Collect(records, ValidHotelDecoder(now)) ==> h.Validate()
    ensures forall i :: 0 <= i < |records| && Hotel.FromDict(records[i], now).Some?
                        && Hotel.FromDict(records[i], now).value.Validate() ==>
              Hotel.FromDict(records[i], now).value in Collect(records, ValidHotelDecoder(now))
  {
    CollectMembers(records, ValidHotelDecoder(now));
    forall i | 0 <= i < |records| && Hotel.FromDict(records[i], now).Some? && Hotel.FromDict(records[i], now).value.Validate()
      ensures Hotel.FromDict(records[i], now).value in Collect(records, ValidHotelDecoder(now))
    {
      assert ValidHotelDecoder(now)(records[i]).Some?;
    }
  }

  lemma AllCustomersValid(records: seq<Record>, now: string)
    ensures forall c :: c in Collect(records, ValidCustomerDecoder(now)) ==> c.Validate()
  {
    CollectMembers(records, ValidCustomerDecoder(now));
  }

  /** `get_reservations_by_hotel(h)` returns valid, active reservations of hotel `h`. */
  lemma ByHotelSound(records: seq<Record>, hotelId: string, now: string)
    ensures forall r :: r in Collect(Matching(Matching(records, "hotel_id", hotelId), "status", Active),
                                     ValidReservationDecoder(now)) ==>
              r.hotelId == hotelId && r.status == Active && r.Validate()
  {
    var byHotel := Matching(records, "hotel_id", hotelId);
    var active := Matching(byHotel, "status", Active);
    CollectMembers(active, ValidReservationDecoder(now));
    MatchingMembers(records, "hotel_id", hotelId);
    MatchingMembers(byHotel, "status", Active);
    forall r | r in Collect(active, ValidReservationDecoder(now))
      ensures r.hotelId == hotelId && r.status == Active && r.Validate()
    {
      var i :| 0 <= i < |active| && ValidReservationDecoder(now)(active[i]) == Some(r);
      assert active[i] in active;
      assert Reservation.FromDict(active[i], now) == Some(r);
    }
  }

  /** `get_reservations_by_customer(c)` returns valid reservations of customer `c`,
      whatever their status. */
  lemma ByCustomerSound(records: seq<Record>, customerId: string, now: string)
    ensures forall r :: r in Collect(Matching(records, "customer_id", customerId), ValidReservationDecoder(now)) ==>
              r.customerId == customerId && r.Validate()
  {
    var byCustomer := Matching(records, "customer_id", customerId);
    CollectMembers(byCustomer, ValidReservationDecoder(now));
    MatchingMembers(records, "customer_id", customerId);
    forall r | r in Collect(byCustomer, ValidReservationDecoder(now))
      ensures r.customerId == customerId && r.Validate()
    {
      var i :| 0 <= i < |byCustomer| && ValidReservationDecoder(now)(byCustomer[i]) == Some(r);
      assert byCustomer[i] in byCustomer;
      assert Reservation.FromDict(byCustomer[i], now) == Some(r);
    }
  }

  /** A stored reservation without a `status` field decodes as active, and the
      customer query returns it when it is valid; yet `get_reservations_by_hotel`
      always leaves it out, because its filter reads the stored field. */
  lemma MissingStatusExcludedByHotel(d: Record, hotelId: string, customerId: string, now: string)
    requires "status" !in d
    ensures ReservationDecoder(now)(d).Some? ==> ReservationDecoder(now)(d).value.status == Active
    ensures Collect(Matching(Matching([d], "hotel_id", hotelId), "status", Active), ValidReservationDecoder(now)) == []
    ensures KeyIs(d, "customer_id", customerId) && ValidReservationDecoder(now)(d).Some? ==>
              Collect(Matching([d], "customer_id", customerId), ValidReservationDecoder(now))
              == [ValidReservationDecoder(now)(d).value]
  {
    MatchingSnoc([], d, "hotel_id", hotelId);
    assert [] + [d] == [d];
    var byHotel := Matching([d], "hotel_id", hotelId);
    assert byHotel == [] || byHotel == [d];
    if byHotel == [d] {
      MatchingSnoc([], d, "status", Active);
    }
    MatchingSnoc([], d, "customer_id", customerId);
    CollectSnoc([], d, ValidReservationDecoder(now));
  }

  /** `get_*` does not validate: a stored hotel that decodes but is invalid is what
      `get_hotel` returns for its id, while `get_all_hotels` skips it. */
  lemma GetDoesNotValidate(d: Record, now: string)
    requires Hotel.FromDict(d, now).Some? && !Hotel.FromDict(d, now).value.Validate()
    ensures var h := Hotel.FromDict(d, now).value;
      && FirstDecoded([d], "hotel_id", h.hotelId, HotelDecoder(now)) == Some(h)
      && Collect([d], ValidHotelDecoder(now)) == []
  {
    assert [d][..0] == [];
  }

  /** Such hotels exist: one with a negative room count. */
  lemma InvalidStoredHotelExample(now: string)
    ensures var d: Record := map["hotel_id" := VStr("H1"), "name" := VStr("Inn"), "location" := VStr("Town"),
                                 "total_rooms" := VInt(-5)];
      && Hotel.FromDict(d, now) == Some(Hotel("H1", "Inn", "Town", -5, -5, 0.0, now))
      && !Hotel.FromDict(d, now).value.Validate()
  {
  }

  /** A JSON boolean passes Python's numeric `isinstance` checks: a hotel stored with
      `"price_per_room": true` and `"total_rooms": true` is valid and `get_all_hotels`
      returns it, with price 1.0 and one room. */
  lemma BooleanFieldsKept(now: string)
    ensures var d: Record := map["hotel_id" := VStr("H1"), "name" := VStr("Inn"), "location" := VStr("Town"),
                                 "total_rooms" := VBool(true), "price_per_room" := VBool(true)];
      Collect([d], ValidHotelDecoder(now)) == [Hotel("H1", "Inn", "Town", 1, 1, 1.0, now)]
  {
    var d: Record := map["hotel_id" := VStr("H1"), "name" := VStr("Inn"), "location" := VStr("Town"),
                         "total_rooms" := VBool(true), "price_per_room" := VBool(true)];
    assert [d][..0] == [];
    assert Hotel.FromDict(d, now) == Some(Hotel("H1", "Inn", "Town", 1, 1, 1.0, now));
  }

  /** `update_*` does not check the new record's key against the looked-up one, so an
      update can leave two records with the same key. */
  lemma UpdateCanDuplicateKeys(a: Hotel, b: Hotel)
    requires a.hotelId != b.hotelId
    ensures HasKey([a.ToDict(), b.ToDict()], "hotel_id", a.hotelId)
    ensures var stored := [a.ToDict(), b.ToDict()];
      var after := stored[FirstIndex(stored, "hotel_id", a.hotelId) := b.ToDict()];
      && !HasKey(after, "hotel_id", a.hotelId)
      && KeyIs(after[0], "hotel_id", b.hotelId) && KeyIs(after[1], "hotel_id", b.hotelId)
  {
    var stored := [a.ToDict(), b.ToDict()];
    assert KeyIs(stored[0], "hotel_id", a.hotelId);
    assert HasKey(stored, "hotel_id", a.hotelId);
    assert !KeyIs(b.ToDict(), "hotel_id", a.hotelId);
  }

  /** A valid reservation's stored record decodes and validates, as the reservation
      with the reading clock's stamp. */
  lemma ValidReservationDecodes(r: Reservation, now: string)
    requires r.Validate()
    ensures ValidReservationDecoder(now)(r.ToDict()) == Some(r.(createdDate := now))
  {
    assert Reservation.FromDict(r.ToDict(), now) == Some(r.(createdDate := now));
    assert r.(createdDate := now).Validate() by {
      assert r.(createdDate := now).DatesValid() == r.DatesValid();
    }
  }

  /** With a record whose stored status is not "active" before an active record of
      hotel `h`, the hotel query returns only the second one's decoding. */
  lemma HotelQuerySkipsInactive(c: Record, d: Record, h: string, now: string)
    requires !KeyIs(c, "status", Active) && KeyIs(d, "hotel_id", h) && KeyIs(d, "status", Active)
    requires ValidReservationDecoder(now)(d).Some?
    ensures Collect(Matching(Matching([c, d], "hotel_id", h), "status", Active), ValidReservationDecoder(now))
            == [ValidReservationDecoder(now)(d).value]
  {
    assert [c, d] == [c] + [d];
    assert [] + [c] == [c] && [] + [d] == [d];
    MatchingSnoc([], c, "hotel_id", h);
    MatchingSnoc([c], d, "hotel_id", h);
    var byHotel := Matching([c, d], "hotel_id", h);
    if KeyIs(c, "hotel_id", h) {
      assert byHotel == [c] + [d];
      MatchingSnoc([], c, "status", Active);
      MatchingSnoc([c], d, "status", Active);
    } else {
      assert byHotel == [] + [d];
      MatchingSnoc([], d, "status", Active);
    }
    assert Matching(byHotel, "status", Active) == [] + [d];
    CollectSnoc([], d, ValidReservationDecoder(now));
  }

  /** Two records with different ids: the second's id is not in a store holding only
      the first, and in the pair the first id is found at position 0. */
  lemma TwoKeys(d1: Record, d2: Record, field: string, k1: string, k2: string, d1': Record)
    requires KeyIs(d1, field, k1) && KeyIs(d2, field, k2) && k1 != k2
    ensures !HasKey([d1], field, k2)
    ensures [] + [d1] == [d1] && [d1] + [d2] == [d1, d2]
    ensures HasKey([d1, d2], field, k1) && FirstIndex([d1, d2], field, k1) == 0
    ensures [d1, d2][0 := d1'] == [d1', d2]
  {
    assert [d1][0] == d1;
    assert KeyIs([d1, d2][0], field, k1);
  }

  /** The engine's cancellation scenario: two valid active reservations for one hotel
      are created in an empty store, the first is stored again cancelled through
      `update_reservation`, and `get_reservations_by_hotel` then returns exactly the
      second one, stamped with the reading clock. */
  method CancelledDropsOutOfHotelQuery(r1: Reservation, r2: Reservation, now: string)
    returns (created1: bool, created2: bool, updated: bool, active: seq<Reservation>)
    requires r1.Validate() && r2.Validate() && r1.status == Active && r2.status == Active
    requires r1.hotelId == r2.hotelId && r1.reservationId != r2.reservationId
    ensures created1 && created2 && updated
    ensures active == [r2.(createdDate := now)]
  {
    var cancelled := r1.Cancel().entity;
    HotelSystemProperties.CancelIsFinal(r1);
    TwoKeys(r1.ToDict(), r2.ToDict(), "reservation_id", r1.reservationId, r2.reservationId, cancelled.ToDict());
    ValidReservationDecodes(r2, now);
    HotelQuerySkipsInactive(cancelled.ToDict(), r2.ToDict(), r2.hotelId, now);
    var db := new DataPersistence(None, None, None);
    created1 := db.CreateReservation(r1);
    created2 := db.CreateReservation(r2);
    updated := db.UpdateReservation(r1.reservationId, cancelled);
    active := db.GetReservationsByHotel(r1.hotelId, now);
  }
}
