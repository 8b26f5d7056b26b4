/** The hotel system's entities: hotels, customers and reservations. Each is a value
    with a `Validate` predicate, a `ToDict`/`FromDict` pair that converts it to and
    from a stored JSON object, equality by its key alone, and the state-changing
    operations of the Python class, each returning the boolean the Python method
    returns together with the entity's fields after the call. */
module HotelSystem {
  import opened Wrappers
  import opened Records
  import opened Dates

  /** `bool(value and isinstance(value, str))` for a field typed as a string. */
  predicate NonEmpty(s: string) {
    s != ""
  }

  /** The string held by `field`, if it is present and a string. */
  function StringField(d: Record, field: string): (r: Option<string>)
    ensures r.Some? <==> field in d && d[field].VStr?
    ensures r.Some? ==> d[field] == VStr(r.value)
  {
    if field in d && d[field].VStr? then Some(d[field].s) else None
  }

  /** The integer held by `field`, if it is present and an integer. A JSON `true` or
      `false` passes `isinstance(x, int)` in Python and compares as 1 or 0. */
  function IntField(d: Record, field: string): (r: Option<int>)
    ensures r.Some? <==> field in d && (d[field].VInt? || d[field].VBool?)
    ensures r.Some? && d[field].VInt? ==> r.value == d[field].i
    ensures r.Some? && d[field].VBool? ==> r.value == if d[field].b then 1 else 0
  {
    if field !in d then None
    else match d[field]
      case VInt(i) => Some(i)
      case VBool(b) => Some(if b then 1 else 0)
      case _ => None
  }

  /** The number held by `field` (`isinstance(x, (int, float))`, which a JSON boolean
      also passes), as a real. */
  function NumberField(d: Record, field: string): (r: Option<real>)
    ensures r.Some? <==> field in d && (d[field].VInt? || d[field].VReal? || d[field].VBool?)
    ensures r.Some? && d[field].VInt? ==> r.value == d[field].i as real
    ensures r.Some? && d[field].VReal? ==> r.value == d[field].r
    ensures r.Some? && d[field].VBool? ==> r.value == if d[field].b then 1.0 else 0.0
  {
    if field !in d then None
    else match d[field]
      case VInt(i) => Some(i as real)
      case VReal(x) => Some(x)
      case VBool(b) => Some(if b then 1.0 else 0.0)
      case _ => None
  }

  // ---------------------------------------------------------------------------
  // Hotel

  datatype Hotel = Hotel(hotelId: string, name: string, location: string,
                         totalRooms: int, roomsAvailable: int, pricePerRoom: real,
                         createdDate: string)
  {
    /** The rooms currently taken. */
    function Occupied(): (r: int) {
      totalRooms - roomsAvailable
    }

    /** `_validate_room_counts`. */
    predicate RoomCountsValid() {
      totalRooms > 0 && roomsAvailable >= 0 && roomsAvailable <= totalRooms
    }

    /** `_validate_price`. */
    predicate PriceValid() {
      pricePerRoom >= 0.0
    }

    predicate Validate()
      ensures Validate() <==>
        hotelId != "" && name != "" && location != ""
        && totalRooms > 0 && 0 <= roomsAvailable <= totalRooms && pricePerRoom >= 0.0
    {
      NonEmpty(hotelId) && NonEmpty(name) && NonEmpty(location) && RoomCountsValid() && PriceValid()
    }

    function ToDict(): (d: Record)
      ensures d.Keys == {"hotel_id", "name", "location", "total_rooms", "rooms_available",
                         "price_per_room", "created_date"}
      ensures KeyIs(d, "hotel_id", hotelId)
      ensures d["name"] == VStr(name) && d["location"] == VStr(location)
      ensures d["total_rooms"] == VInt(totalRooms) && d["rooms_available"] == VInt(roomsAvailable)
      ensures d["price_per_room"] == VReal(pricePerRoom) && d["created_date"] == VStr(createdDate)
    {
      map["hotel_id" := VStr(hotelId), "name" := VStr(name), "location" := VStr(location),
          "total_rooms" := VInt(totalRooms), "rooms_available" := VInt(roomsAvailable),
          "price_per_room" := VReal(pricePerRoom), "created_date" := VStr(createdDate)]
    }

    /** `Hotel.from_dict`: the constructor stamps `created_date` with `now`. A missing
        required field fails (`KeyError`); a missing or null `rooms_available` becomes
        `total_rooms`, a missing `price_per_room` becomes 0. */
    static function FromDict(d: Record, now: string): (r: Option<Hotel>)
      ensures "hotel_id" !in d || "name" !in d || "location" !in d || "total_rooms" !in d ==> r.None?
      ensures r.Some? ==> KeyIs(d, "hotel_id", r.value.hotelId) && r.value.createdDate == now
      ensures r.Some? && ("rooms_available" !in d || d["rooms_available"] == VNull) ==>
                r.value.roomsAvailable == r.value.totalRooms
      ensures r.Some? && "price_per_room" !in d ==> r.value.pricePerRoom == 0.0
      ensures r.Some? <==>
                && StringField(d, "hotel_id").Some? && StringField(d, "name").Some?
                && StringField(d, "location").Some? && IntField(d, "total_rooms").Some?
                && ("rooms_available" !in d || d["rooms_available"] == VNull || IntField(d, "rooms_available").Some?)
                && ("price_per_room" !in d || NumberField(d, "price_per_room").Some?)
      ensures r.Some? ==> StringField(d, "name") == Some(r.value.name)
                          && StringField(d, "location") == Some(r.value.location)
                          && IntField(d, "total_rooms") == Some(r.value.totalRooms)
      ensures r.Some? && "rooms_available" in d && d["rooms_available"] != VNull ==>
                IntField(d, "rooms_available") == Some(r.value.roomsAvailable)
      ensures r.Some? && "price_per_room" in d ==> NumberField(d, "price_per_room") == Some(r.value.pricePerRoom)
    {
      var id, name, location := StringField(d, "hotel_id"), StringField(d, "name"), StringField(d, "location");
      var total := IntField(d, "total_rooms");
      var available := if "rooms_available" !in d || d["rooms_available"] == VNull then total
                       else IntField(d, "rooms_available");
      var price := if "price_per_room" !in d then Some(0.0) else NumberField(d, "price_per_room");
      if id.Some? && name.Some? && location.Some? && total.Some? && available.Some? && price.Some? then
        Some(Hotel(id.value, name.value, location.value, total.value, available.value, price.value, now))
      else
        None
    }

    /** `__eq__`: hotels are equal when their ids are, that is when the other's
        stored record has this one's `hotel_id`. */
    predicate Equals(other: Hotel)
      ensures Equals(other) <==> KeyIs(other.ToDict(), "hotel_id", hotelId)
    {
      hotelId == other.hotelId
    }

    /** `reserve_room`. */
    function ReserveRoom(): (r: Updated<Hotel>)
      ensures r.ok <==> roomsAvailable > 0
      ensures r.entity.roomsAvailable == if r.ok then roomsAvailable - 1 else roomsAvailable
      ensures r.entity.(roomsAvailable := roomsAvailable) == this
    {
      if roomsAvailable > 0 then Updated(true, this.(roomsAvailable := roomsAvailable - 1))
      else Updated(false, this)
    }

    /** `cancel_reservation`: releases one occupied room. */
    function CancelReservation(): (r: Updated<Hotel>)
      ensures r.ok <==> roomsAvailable < totalRooms
      ensures r.entity.roomsAvailable == if r.ok then roomsAvailable + 1 else roomsAvailable
      ensures r.entity.(roomsAvailable := roomsAvailable) == this
    {
      if roomsAvailable < totalRooms then Updated(true, this.(roomsAvailable := roomsAvailable + 1))
      else Updated(false, this)
    }

    /** `update(name, location, total_rooms, price_per_room)`: assigns the given fields
        in that order. A `total_rooms` below the occupied count returns false at once,
        after `name` and `location` have been assigned and before `price_per_room` is;
        otherwise it moves `rooms_available` by the same amount as `total_rooms`, and
        the result is `validate()` of the new fields, which stay assigned either way. */
    function Update(newName: Option<string>, newLocation: Option<string>,
                    newTotalRooms: Option<int>, newPrice: Option<real>): (r: Updated<Hotel>)
      ensures r.entity.hotelId == hotelId && r.entity.createdDate == createdDate
      ensures r.entity.name == if newName.Some? then newName.value else name
      ensures r.entity.location == if newLocation.Some? then newLocation.value else location
      ensures newTotalRooms.Some? && newTotalRooms.value < Occupied() ==>
                && !r.ok
                && r.entity.totalRooms == totalRooms
                && r.entity.roomsAvailable == roomsAvailable
                && r.entity.pricePerRoom == pricePerRoom
      ensures !(newTotalRooms.Some? && newTotalRooms.value < Occupied()) ==>
                && r.ok == r.entity.Validate()
                && r.entity.totalRooms == (if newTotalRooms.Some? then newTotalRooms.value else totalRooms)
                && r.entity.Occupied() == Occupied()
                && r.entity.pricePerRoom == (if newPrice.Some? then newPrice.value else pricePerRoom)
    {
      var named := if newName.Some? then this.(name := newName.value) else this;
      var located := if newLocation.Some? then named.(location := newLocation.value) else named;
      if newTotalRooms.Some? && newTotalRooms.value < located.totalRooms - located.roomsAvailable then
        Updated(false, located)
      else
        var resized :=
          if newTotalRooms.Some? then
            var roomsDiff := newTotalRooms.value - located.totalRooms;
            located.(totalRooms := newTotalRooms.value, roomsAvailable := located.roomsAvailable + roomsDiff)
          else located;
        var priced := if newPrice.Some? then resized.(pricePerRoom := newPrice.value) else resized;
        Updated(priced.Validate(), priced)
    }
  }

  /** `k` successive `reserve_room` calls; `ok` says whether every one returned true. */
  function ReserveRooms(h: Hotel, k: nat): (r: Updated<Hotel>)
    decreases k
  {
    if k == 0 then Updated(true, h)
    else
      var first := h.ReserveRoom();
      var rest := ReserveRooms(first.entity, k - 1);
      Updated(first.ok && rest.ok, rest.entity)
  }

  /** `k` successive `cancel_reservation` calls. */
  function CancelReservations(h: Hotel, k: nat): (r: Updated<Hotel>)
    decreases k
  {
    if k == 0 then Updated(true, h)
    else
      var first := h.CancelReservation();
      var rest := CancelReservations(first.entity, k - 1);
      Updated(first.ok && rest.ok, rest.entity)
  }

  // ---------------------------------------------------------------------------
  // Customer

  datatype Customer = Customer(customerId: string, name: string, email: string, phone: string,
                               createdDate: string)
  {
    predicate Validate()
      ensures Validate() <==> customerId != "" && name != "" && email != "" && '@' in email && phone != ""
    {
      if !NonEmpty(customerId) then false
      else if !NonEmpty(name) then false
      else if !NonEmpty(email) then false
      else if '@' !in email then false
      else if !NonEmpty(phone) then false
      else true
    }

    function ToDict(): (d: Record)
      ensures d.Keys == {"customer_id", "name", "email", "phone", "created_date"}
      ensures KeyIs(d, "customer_id", customerId)
      ensures d["name"] == VStr(name) && d["email"] == VStr(email) && d["phone"] == VStr(phone)
      ensures d["created_date"] == VStr(createdDate)
    {
      map["customer_id" := VStr(customerId), "name" := VStr(name), "email" := VStr(email),
          "phone" := VStr(phone), "created_date" := VStr(createdDate)]
    }

    /** `Customer.from_dict`: all four fields are required. */
    static function FromDict(d: Record, now: string): (r: Option<Customer>)
      ensures "customer_id" !in d || "name" !in d || "email" !in d || "phone" !in d ==> r.None?
      ensures r.Some? ==> KeyIs(d, "customer_id", r.value.customerId) && r.value.createdDate == now
      ensures r.Some? <==>
                && StringField(d, "customer_id").Some? && StringField(d, "name").Some?
                && StringField(d, "email").Some? && StringField(d, "phone").Some?
      ensures r.Some? ==> StringField(d, "name") == Some(r.value.name)
                          && StringField(d, "email") == Some(r.value.email)
                          && StringField(d, "phone") == Some(r.value.phone)
    {
      var id, name, email, phone :=
        StringField(d, "customer_id"), StringField(d, "name"), StringField(d, "email"), StringField(d, "phone");
      if id.Some? && name.Some? && email.Some? && phone.Some? then
        Some(Customer(id.value, name.value, email.value, phone.value, now))
      else
        None
    }

    /** `__eq__`: customers are equal when their ids are, that is when the other's
        stored record has this one's `customer_id`. */
    predicate Equals(other: Customer)
      ensures Equals(other) <==> KeyIs(other.ToDict(), "customer_id", customerId)
    {
      customerId == other.customerId
    }

    /** `update(name, email, phone)`: assigns the given fields and returns `validate()`. */
    function Update(newName: Option<string>, newEmail: Option<string>, newPhone: Option<string>): (r: Updated<Customer>)
      ensures r.ok == r.entity.Validate()
      ensures r.entity.customerId == customerId && r.entity.createdDate == createdDate
      ensures r.entity.name == if newName.Some? then newName.value else name
      ensures r.entity.email == if newEmail.Some? then newEmail.value else email
      ensures r.entity.phone == if newPhone.Some? then newPhone.value else phone
    {
      var named := if newName.Some? then this.(name := newName.value) else this;
      var mailed := if newEmail.Some? then named.(email := newEmail.value) else named;
      var phoned := if newPhone.Some? then mailed.(phone := newPhone.value) else mailed;
      Updated(phoned.Validate(), phoned)
    }
  }

  // ---------------------------------------------------------------------------
  // Reservation

  const Active := "active"
  const Cancelled := "cancelled"

  datatype Reservation = Reservation(reservationId: string, customerId: string, hotelId: string,
                                     checkIn: string, checkOut: string, status: string,
                                     createdDate: string)
  {
    /** `_validate_string_fields`. */
    predicate StringFieldsValid() {
      NonEmpty(reservationId) && NonEmpty(customerId) && NonEmpty(hotelId) && NonEmpty(checkIn) && NonEmpty(checkOut)
    }

    /** `_validate_dates`: both dates parse and check-in is strictly earlier. */
    predicate DatesValid() {
      var checkInDate, checkOutDate := ParseIsoDate(checkIn), ParseIsoDate(checkOut);
      checkInDate.Some? && checkOutDate.Some? && Before(checkInDate.value, checkOutDate.value)
    }

    predicate Validate()
      ensures Validate() <==>
        && reservationId != "" && customerId != "" && hotelId != "" && checkIn != "" && checkOut != ""
        && (status == Active || status == Cancelled)
        && ParseIsoDate(checkIn).Some? && ParseIsoDate(checkOut).Some?
        && Before(ParseIsoDate(checkIn).value, ParseIsoDate(checkOut).value)
    {
      StringFieldsValid() && status in [Active, Cancelled] && DatesValid()
    }

    function ToDict(): (d: Record)
      ensures d.Keys == {"reservation_id", "customer_id", "hotel_id", "check_in", "check_out",
                         "status", "created_date"}
      ensures KeyIs(d, "reservation_id", reservationId)
      ensures KeyIs(d, "customer_id", customerId) && KeyIs(d, "hotel_id", hotelId) && KeyIs(d, "status", status)
      ensures d["check_in"] == VStr(checkIn) && d["check_out"] == VStr(checkOut)
      ensures d["created_date"] == VStr(createdDate)
    {
      map["reservation_id" := VStr(reservationId), "customer_id" := VStr(customerId),
          "hotel_id" := VStr(hotelId), "check_in" := VStr(checkIn), "check_out" := VStr(checkOut),
          "status" := VStr(status), "created_date" := VStr(createdDate)]
    }

    /** `Reservation.from_dict`: five required fields; a missing `status` becomes "active". */
    static function FromDict(d: Record, now: string): (r: Option<Reservation>)
      ensures ("reservation_id" !in d || "customer_id" !in d || "hotel_id" !in d
               || "check_in" !in d || "check_out" !in d) ==> r.None?
      ensures r.Some? ==> KeyIs(d, "reservation_id", r.value.reservationId) && r.value.createdDate == now
      ensures r.Some? ==> KeyIs(d, "customer_id", r.value.customerId) && KeyIs(d, "hotel_id", r.value.hotelId)
      ensures r.Some? && "status" !in d ==> r.value.status == Active
      ensures r.Some? && "status" in d ==> d["status"] == VStr(r.value.status)
      ensures r.Some? <==>
                && StringField(d, "reservation_id").Some? && StringField(d, "customer_id").Some?
                && StringField(d, "hotel_id").Some? && StringField(d, "check_in").Some?
                && StringField(d, "check_out").Some? && ("status" !in d || StringField(d, "status").Some?)
      ensures r.Some? ==> StringField(d, "check_in") == Some(r.value.checkIn)
                          && StringField(d, "check_out") == Some(r.value.checkOut)
    {
      var id, customer, hotel := StringField(d, "reservation_id"), StringField(d, "customer_id"), StringField(d, "hotel_id");
      var checkIn, checkOut := StringField(d, "check_in"), StringField(d, "check_out");
      var status := if "status" !in d then Some(Active) else StringField(d, "status");
      if id.Some? && customer.Some? && hotel.Some? && checkIn.Some? && checkOut.Some? && status.Some? then
        Some(Reservation(id.value, customer.value, hotel.value, checkIn.value, checkOut.value, status.value, now))
      else
        None
    }

    /** `__eq__`: reservations are equal when their ids are, that is when the other's
        stored record has this one's `reservation_id`. */
    predicate Equals(other: Reservation)
      ensures Equals(other) <==> KeyIs(other.ToDict(), "reservation_id", reservationId)
    {
      reservationId == other.reservationId
    }

    /** `cancel`: only an active reservation becomes cancelled. */
    function Cancel(): (r: Updated<Reservation>)
      ensures r.ok <==> status == Active
      ensures r.entity == if r.ok then this.(status := Cancelled) else this
    {
      if status == Active then Updated(true, this.(status := Cancelled)) else Updated(false, this)
    }
  }
}
