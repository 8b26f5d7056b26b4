/** The persistence engine: one JSON array document per entity kind, each accessed by
    reading the whole document, changing it in memory, and writing it back whole. */
module Persistence {
  import opened Wrappers
  import opened Records
  import opened HotelSystem

  /** The three documents `hotels.json`, `customers.json` and `reservations.json`. */
  datatype File = HotelsFile | CustomersFile | ReservationsFile

  /** What `_read_json_file` returns for a document: its array, or `[]` when the
      document is missing, not valid JSON, or not an array. */
  function ReadDocument(doc: Document): (records: seq<Record>)
  {
    match doc
    case JsonList(items) => items
    case Malformed => []
  }

  /** `_ensure_files` for one document: a document that does not exist is written as `[]`. */
  function EnsureFile(onDisk: Option<Document>): (doc: Document)
    ensures onDisk.None? ==> doc == JsonList([])
    ensures onDisk.Some? ==> doc == onDisk.value
  {
    if onDisk.None? then JsonList([]) else onDisk.value
  }

  // ---------------------------------------------------------------------------
  // Decoding stored records

  /** `Hotel.from_dict`, with the constructor's clock reading `now`. */
  function HotelDecoder(now: string): Record -> Option<Hotel> {
    d => Hotel.FromDict(d, now)
  }

  /** `Hotel.from_dict` followed by `validate()`: the hotels `get_all_hotels` keeps. */
  function ValidHotelDecoder(now: string): Record -> Option<Hotel> {
    d => var h := Hotel.FromDict(d, now); if h.Some? && h.value.Validate() then h else None
  }

  function CustomerDecoder(now: string): Record -> Option<Customer> {
    d => Customer.FromDict(d, now)
  }

  function ValidCustomerDecoder(now: string): Record -> Option<Customer> {
    d => var c := Customer.FromDict(d, now); if c.Some? && c.value.Validate() then c else None
  }

  function ReservationDecoder(now: string): Record -> Option<Reservation> {
    d => Reservation.FromDict(d, now)
  }

  function ValidReservationDecoder(now: string): Record -> Option<Reservation> {
    d => var r := Reservation.FromDict(d, now); if r.Some? && r.value.Validate() then r else None
  }

  /** What a `get_*` by key returns: the decoding of the first record that has the key
      and decodes; records with the key that fail to decode are skipped. */
  function FirstDecoded<T>(records: seq<Record>, field: string, key: string,
                           decode: Record -> Option<T>): (r: Option<T>)
    ensures r.Some? ==>
      exists i :: && 0 <= i < |records| && KeyIs(records[i], field, key) && decode(records[i]) == r
                  && forall j :: 0 <= j < i ==> !(KeyIs(records[j], field, key) && decode(records[j]).Some?)
    ensures r.None? <==>
      forall i :: 0 <= i < |records| && KeyIs(records[i], field, key) ==> decode(records[i]).None?
  {
    if records == [] then None
    else if KeyIs(records[0], field, key) && decode(records[0]).Some? then decode(records[0])
    else
      var r := FirstDecoded(records[1..], field, key, decode);
      assert forall i :: 1 <= i < |records| ==> records[i] == records[1..][i - 1];
      r
  }

  /** What a `get_all_*` returns: in stored order, the decodings of the records that
      decode (for the `get_all_*` queries, decode and validate). */
  function Collect<T>(records: seq<Record>, decode: Record -> Option<T>): (r: seq<T>)
    ensures |r| <= |records|
  {
    if records == [] then []
    else
      var rest := Collect(records[..|records| - 1], decode);
      var last := decode(records[|records| - 1]);
      if last.Some? then rest + [last.value] else rest
  }

  lemma CollectSnoc<T>(records: seq<Record>, last: Record, decode: Record -> Option<T>)
    ensures Collect(records + [last], decode)
            == Collect(records, decode) + (if decode(last).Some? then [decode(last).value] else [])
  {
    assert (records + [last])[..|records|] == records;
  }

  /** One more stored record adds its reservation to the by-hotel query exactly when
      it has the hotel id, a stored status "active", and decodes and validates. */
  lemma ByHotelStep(records: seq<Record>, i: nat, hotelId: string, now: string)
    requires i < |records|
    ensures var decode := ValidReservationDecoder(now);
      var last := records[i];
      Collect(Matching(Matching(records[..i + 1], "hotel_id", hotelId), "status", Active), decode)
      == Collect(Matching(Matching(records[..i], "hotel_id", hotelId), "status", Active), decode)
         + (if KeyIs(last, "hotel_id", hotelId) && KeyIs(last, "status", Active) && decode(last).Some?
            then [decode(last).value] else [])
  {
    assert records[..i + 1] == records[..i] + [records[i]];
    var byHotel := Matching(records[..i], "hotel_id", hotelId);
    MatchingSnoc(records[..i], records[i], "hotel_id", hotelId);
    MatchingSnoc(byHotel, records[i], "status", Active);
    CollectSnoc(Matching(byHotel, "status", Active), records[i], ValidReservationDecoder(now));
  }

  /** One more stored record adds its reservation to the by-customer query exactly
      when it has the customer id and decodes and validates. */
  lemma ByCustomerStep(records: seq<Record>, i: nat, customerId: string, now: string)
    requires i < |records|
    ensures var decode := ValidReservationDecoder(now);
      var last := records[i];
      Collect(Matching(records[..i + 1], "customer_id", customerId), decode)
      == Collect(Matching(records[..i], "customer_id", customerId), decode)
         + (if KeyIs(last, "customer_id", customerId) && decode(last).Some?
            then [decode(last).value] else [])
  {
    assert records[..i + 1] == records[..i] + [records[i]];
    MatchingSnoc(records[..i], records[i], "customer_id", customerId);
    CollectSnoc(Matching(records[..i], "customer_id", customerId), records[i], ValidReservationDecoder(now));
  }

  // ---------------------------------------------------------------------------
  // The engine

  class DataPersistence {
    var hotels: Document
    var customers: Document
    var reservations: Document

    /** `__init__`: the documents as found in the data directory (`None` for one that
        does not exist yet), after `_ensure_files`. */
    constructor (hotelsOnDisk: Option<Document>, customersOnDisk: Option<Document>,
                 reservationsOnDisk: Option<Document>)
      ensures hotels == EnsureFile(hotelsOnDisk)
      ensures customers == EnsureFile(customersOnDisk)
      ensures reservations == EnsureFile(reservationsOnDisk)
    {
      hotels := EnsureFile(hotelsOnDisk);
      customers := EnsureFile(customersOnDisk);
      reservations := EnsureFile(reservationsOnDisk);
    }

    function Doc(f: File): (r: Document)
      reads this
    {
      match f
      case HotelsFile => hotels
      case CustomersFile => customers
      case ReservationsFile => reservations
    }

    /** `_read_json_file`. */
    function ReadJsonFile(f: File): (records: seq<Record>)
      reads this
      ensures Doc(f).JsonList? ==> records == Doc(f).items
      ensures Doc(f).Malformed? ==> records == []
    {
      ReadDocument(Doc(f))
    }

    /** `_write_json_file`: replaces the whole document. */
    method WriteJsonFile(f: File, data: seq<Record>) returns (ok: bool)
      modifies this
      ensures ok && Doc(f) == JsonList(data)
      ensures forall g :: g != f ==> Doc(g) == old(Doc(g))
    {
      ok := true;
      match f
      case HotelsFile => hotels := JsonList(data);
      case CustomersFile => customers := JsonList(data);
      case ReservationsFile => reservations := JsonList(data);
    }

    // The read-modify-write steps shared by the three collections.

    /** The part of `create_*` after `validate()`: refuse a key that is already stored,
        else append. */
    method Insert(f: File, field: string, key: string, record: Record) returns (ok: bool)
      modifies this
      ensures ok <==> !HasKey(old(ReadJsonFile(f)), field, key)
      ensures Doc(f) == if ok then JsonList(old(ReadJsonFile(f)) + [record]) else old(Doc(f))
      ensures forall g :: g != f ==> Doc(g) == old(Doc(g))
    {
      var records := ReadJsonFile(f);
      for i := 0 to |records|
        invariant forall j :: 0 <= j < i ==> !KeyIs(records[j], field, key)
      {
        if KeyIs(records[i], field, key) {
          return false;
        }
      }
      records := records + [record];
      ok := WriteJsonFile(f, records);
    }

    /** The part of `update_*` after `validate()`: replace the first record with the key. */
    method Replace(f: File, field: string, key: string, record: Record) returns (ok: bool)
      modifies this
      ensures ok <==> HasKey(old(ReadJsonFile(f)), field, key)
      ensures ok ==> Doc(f) == JsonList(old(ReadJsonFile(f))[FirstIndex(old(ReadJsonFile(f)), field, key) := record])
      ensures !ok ==> Doc(f) == old(Doc(f))
      ensures forall g :: g != f ==> Doc(g) == old(Doc(g))
    {
      var records := ReadJsonFile(f);
      for i := 0 to |records|
        invariant forall j :: 0 <= j < i ==> !KeyIs(records[j], field, key)
      {
        if KeyIs(records[i], field, key) {
          assert HasKey(records, field, key);
          records := records[i := record];
          ok := WriteJsonFile(f, records);
          return;
        }
      }
      return false;
    }

    /** `delete_*`: drop every record with the key; write only if one was dropped. */
    method Remove(f: File, field: string, key: string) returns (ok: bool)
      modifies this
      ensures ok <==> HasKey(old(ReadJsonFile(f)), field, key)
      ensures Doc(f) == if ok then JsonList(WithoutKey(old(ReadJsonFile(f)), field, key)) else old(Doc(f))
      ensures forall g :: g != f ==> Doc(g) == old(Doc(g))
    {
      var records := ReadJsonFile(f);
      var initialLength := |records|;
      var kept := WithoutKey(records, field, key);
      WithoutKeyShrinks(records, field, key);
      if |kept| < initialLength {
        ok := WriteJsonFile(f, kept);
      } else {
        ok := false;
      }
    }

    /** The loop of `get_*`. */
    method FindFirst<T>(f: File, field: string, key: string, decode: Record -> Option<T>) returns (r: Option<T>)
      ensures r == FirstDecoded(ReadJsonFile(f), field, key, decode)
    {
      var records := ReadJsonFile(f);
      for i := 0 to |records|
        invariant FirstDecoded(records, field, key, decode) == FirstDecoded(records[i..], field, key, decode)
      {
        assert records[i..][1..] == records[i + 1..];
        if KeyIs(records[i], field, key) {
          var e := decode(records[i]);
          if e.Some? {
            return e;
          }
        }
      }
      return None;
    }

    /** The loop of `get_all_*`. */
    method CollectAll<T>(f: File, decode: Record -> Option<T>) returns (r: seq<T>)
      ensures r == Collect(ReadJsonFile(f), decode)
    {
      var records := ReadJsonFile(f);
      r := [];
      for i := 0 to |records|
        invariant r == Collect(records[..i], decode)
      {
        assert records[..i + 1][..i] == records[..i];
        var e := decode(records[i]);
        if e.Some? {
          r := r + [e.value];
        }
      }
      assert records[..|records|] == records;
    }

    // Hotel operations

    method CreateHotel(hotel: Hotel) returns (ok: bool)
      modifies this
      ensures ok <==> hotel.Validate() && !HasKey(ReadDocument(old(hotels)), "hotel_id", hotel.hotelId)
      ensures hotels == if ok then JsonList(ReadDocument(old(hotels)) + [hotel.ToDict()]) else old(hotels)
      ensures customers == old(customers) && reservations == old(reservations)
    {
      if !hotel.Validate() {
        return false;
      }
      ok := Insert(HotelsFile, "hotel_id", hotel.hotelId, hotel.ToDict());
      assert Doc(CustomersFile) == old(Doc(CustomersFile)) && Doc(ReservationsFile) == old(Doc(ReservationsFile));
    }

    method GetHotel(hotelId: string, now: string) returns (r: Option<Hotel>)
      ensures r == FirstDecoded(ReadDocument(hotels), "hotel_id", hotelId, HotelDecoder(now))
      ensures r.Some? ==> r.value.hotelId == hotelId && r.value.createdDate == now
    {
      r := FindFirst(HotelsFile, "hotel_id", hotelId, HotelDecoder(now));
    }

    method GetAllHotels(now: string) returns (r: seq<Hotel>)
      ensures r == Collect(ReadDocument(hotels), ValidHotelDecoder(now))
    {
      r := CollectAll(HotelsFile, ValidHotelDecoder(now));
    }

    method UpdateHotel(hotelId: string, hotel: Hotel) returns (ok: bool)
      modifies this
      ensures ok <==> hotel.Validate() && HasKey(ReadDocument(old(hotels)), "hotel_id", hotelId)
      ensures ok ==> hotels == JsonList(ReadDocument(old(hotels))[FirstIndex(ReadDocument(old(hotels)), "hotel_id", hotelId) := hotel.ToDict()])
      ensures !ok ==> hotels == old(hotels)
      ensures customers == old(customers) && reservations == old(reservations)
    {
      if !hotel.Validate() {
        return false;
      }
      ok := Replace(HotelsFile, "hotel_id", hotelId, hotel.ToDict());
      assert Doc(CustomersFile) == old(Doc(CustomersFile)) && Doc(ReservationsFile) == old(Doc(ReservationsFile));
    }

    method DeleteHotel(hotelId: string) returns (ok: bool)
      modifies this
      ensures ok <==> HasKey(ReadDocument(old(hotels)), "hotel_id", hotelId)
      ensures hotels == if ok then JsonList(WithoutKey(ReadDocument(old(hotels)), "hotel_id", hotelId)) else old(hotels)
      ensures customers == old(customers) && reservations == old(reservations)
    {
      ok := Remove(HotelsFile, "hotel_id", hotelId);
      assert Doc(CustomersFile) == old(Doc(CustomersFile)) && Doc(ReservationsFile) == old(Doc(ReservationsFile));
    }

    // Customer operations

    method CreateCustomer(customer: Customer) returns (ok: bool)
      modifies this
      ensures ok <==> customer.Validate() && !HasKey(ReadDocument(old(customers)), "customer_id", customer.customerId)
      ensures customers == if ok then JsonList(ReadDocument(old(customers)) + [customer.ToDict()]) else old(customers)
      ensures hotels == old(hotels) && reservations == old(reservations)
    {
      if !customer.Validate() {
        return false;
      }
      ok := Insert(CustomersFile, "customer_id", customer.customerId, customer.ToDict());
      assert Doc(HotelsFile) == old(Doc(HotelsFile)) && Doc(ReservationsFile) == old(Doc(ReservationsFile));
    }

    method GetCustomer(customerId: string, now: string) returns (r: Option<Customer>)
      ensures r == FirstDecoded(ReadDocument(customers), "customer_id", customerId, CustomerDecoder(now))
      ensures r.Some? ==> r.value.customerId == customerId && r.value.createdDate == now
    {
      r := FindFirst(CustomersFile, "customer_id", customerId, CustomerDecoder(now));
    }

    method GetAllCustomers(now: string) returns (r: seq<Customer>)
      ensures r == Collect(ReadDocument(customers), ValidCustomerDecoder(now))
    {
      r := CollectAll(CustomersFile, ValidCustomerDecoder(now));
    }

    method UpdateCustomer(customerId: string, customer: Customer) returns (ok: bool)
      modifies this
      ensures ok <==> customer.Validate() && HasKey(ReadDocument(old(customers)), "customer_id", customerId)
      ensures ok ==> customers == JsonList(ReadDocument(old(customers))[FirstIndex(ReadDocument(old(customers)), "customer_id", customerId) := customer.ToDict()])
      ensures !ok ==> customers == old(customers)
      ensures hotels == old(hotels) && reservations == old(reservations)
    {
      if !customer.Validate() {
        return false;
      }
      ok := Replace(CustomersFile, "customer_id", customerId, customer.ToDict());
      assert Doc(HotelsFile) == old(Doc(HotelsFile)) && Doc(ReservationsFile) == old(Doc(ReservationsFile));
    }

    method DeleteCustomer(customerId: string) returns (ok: bool)
      modifies this
      ensures ok <==> HasKey(ReadDocument(old(customers)), "customer_id", customerId)
      ensures customers == if ok then JsonList(WithoutKey(ReadDocument(old(customers)), "customer_id", customerId)) else old(customers)
      ensures hotels == old(hotels) && reservations == old(reservations)
    {
      ok := Remove(CustomersFile, "customer_id", customerId);
      assert Doc(HotelsFile) == old(Doc(HotelsFile)) && Doc(ReservationsFile) == old(Doc(ReservationsFile));
    }

    // Reservation operations

    method CreateReservation(reservation: Reservation) returns (ok: bool)
      modifies this
      ensures ok <==> reservation.Validate() && !HasKey(ReadDocument(old(reservations)), "reservation_id", reservation.reservationId)
      ensures reservations == if ok then JsonList(ReadDocument(old(reservations)) + [reservation.ToDict()]) else old(reservations)
      ensures hotels == old(hotels) && customers == old(customers)
    {
      if !reservation.Validate() {
        return false;
      }
      ok := Insert(ReservationsFile, "reservation_id", reservation.reservationId, reservation.ToDict());
      assert Doc(HotelsFile) == old(Doc(HotelsFile)) && Doc(CustomersFile) == old(Doc(CustomersFile));
    }

    method GetReservation(reservationId: string, now: string) returns (r: Option<Reservation>)
      ensures r == FirstDecoded(ReadDocument(reservations), "reservation_id", reservationId, ReservationDecoder(now))
      ensures r.Some? ==> r.value.reservationId == reservationId && r.value.createdDate == now
    {
      r := FindFirst(ReservationsFile, "reservation_id", reservationId, ReservationDecoder(now));
    }

    method GetAllReservations(now: string) returns (r: seq<Reservation>)
      ensures r == Collect(ReadDocument(reservations), ValidReservationDecoder(now))
    {
      r := CollectAll(ReservationsFile, ValidReservationDecoder(now));
    }

    method UpdateReservation(reservationId: string, reservation: Reservation) returns (ok: bool)
      modifies this
      ensures ok <==> reservation.Validate() && HasKey(ReadDocument(old(reservations)), "reservation_id", reservationId)
      ensures ok ==> reservations == JsonList(ReadDocument(old(reservations))[FirstIndex(ReadDocument(old(reservations)), "reservation_id", reservationId) := reservation.ToDict()])
      ensures !ok ==> reservations == old(reservations)
      ensures hotels == old(hotels) && customers == old(customers)
    {
      if !reservation.Validate() {
        return false;
      }
      ok := Replace(ReservationsFile, "reservation_id", reservationId, reservation.ToDict());
      assert Doc(HotelsFile) == old(Doc(HotelsFile)) && Doc(CustomersFile) == old(Doc(CustomersFile));
    }

    method DeleteReservation(reservationId: string) returns (ok: bool)
      modifies this
      ensures ok <==> HasKey(ReadDocument(old(reservations)), "reservation_id", reservationId)
      ensures reservations == if ok then JsonList(WithoutKey(ReadDocument(old(reservations)), "reservation_id", reservationId)) else old(reservations)
      ensures hotels == old(hotels) && customers == old(customers)
    {
      ok := Remove(ReservationsFile, "reservation_id", reservationId);
      assert Doc(HotelsFile) == old(Doc(HotelsFile)) && Doc(CustomersFile) == old(Doc(CustomersFile));
    }

    /** `get_reservations_by_hotel`: the stored records with the hotel id and a stored
        status of "active", that decode and validate, in stored order. */
    method GetReservationsByHotel(hotelId: string, now: string) returns (r: seq<Reservation>)
      ensures r == Collect(Matching(Matching(ReadDocument(reservations), "hotel_id", hotelId), "status", Active),
                           ValidReservationDecoder(now))
    {
      var records := ReadJsonFile(ReservationsFile);
      r := [];
      for i := 0 to |records|
        invariant r == Collect(Matching(Matching(records[..i], "hotel_id", hotelId), "status", Active),
                               ValidReservationDecoder(now))
      {
        ByHotelStep(records, i, hotelId, now);
        var resData := records[i];
        if KeyIs(resData, "hotel_id", hotelId) && KeyIs(resData, "status", Active) {
          var reservation := ValidReservationDecoder(now)(resData);
          if reservation.Some? {
            r := r + [reservation.value];
          }
        }
      }
      assert records[..|records|] == records;
    }

    /** `get_reservations_by_customer`: no status filter. */
    method GetReservationsByCustomer(customerId: string, now: string) returns (r: seq<Reservation>)
      ensures r == Collect(Matching(ReadDocument(reservations), "customer_id", customerId),
                           ValidReservationDecoder(now))
    {
      var records := ReadJsonFile(ReservationsFile);
      r := [];
      for i := 0 to |records|
        invariant r == Collect(Matching(records[..i], "customer_id", customerId), ValidReservationDecoder(now))
      {
        ByCustomerStep(records, i, customerId, now);
        var resData := records[i];
        if KeyIs(resData, "customer_id", customerId) {
          var reservation := ValidReservationDecoder(now)(resData);
          if reservation.Some? {
            r := r + [reservation.value];
          }
        }
      }
      assert records[..|records|] == records;
    }

    /** `clear_all_data`: every document becomes `[]`. */
    method ClearAllData() returns (ok: bool)
      modifies this
      ensures ok
      ensures hotels == JsonList([]) && customers == JsonList([]) && reservations == JsonList([])
    {
      var result := true;
      var written := WriteJsonFile(HotelsFile, []);
      result := written && result;
      written := WriteJsonFile(CustomersFile, []);
      result := written && result;
      written := WriteJsonFile(ReservationsFile, []);
      result := written && result;
      assert Doc(HotelsFile) == JsonList([]) && Doc(CustomersFile) == JsonList([]);
      return result;
    }
  }
}
