# Hotel reservation system, number converter and word counter in Dafny

This project models and proves properties of three parts of a collection of small
Python programs:

- **The hotel reservation system** (`6.2/P1/src`). It has three entities: hotels,
  customers and reservations. Each one validates its fields, converts to and from a
  JSON object, compares by key, and has state-changing operations: reserve or
  release a room, resize a hotel, update a customer, cancel a reservation. A
  persistence engine keeps one JSON array per entity kind. Every operation reads the
  whole array, changes it in memory, and writes it back whole.
- **The number converter** (`4.2/P2/source/convertNumbers.py`). It converts by
  repeated division by 2 or 16. It also sorts a data file's lines into numbers and
  invalid entries.
- **The word counter** (`4.2/P3/source/wordCount.py`). It validates words, builds a
  case-folded frequency table with a linear scan, and bubble-sorts the table by word.

Layout, one module per file:

| file | module | models |
|---|---|---|
| `wrappers.dfy` | `Wrappers` | `Option`, `Updated` (the boolean a Python mutator returns, with the entity's fields after the call) |
| `records.dfy` | `Records` | JSON values and objects, key lookup, the filters the engine applies |
| `dates.dfy` | `Dates` | calendar dates in `YYYY-MM-DD` form |
| `hotel_system.dfy` | `HotelSystem` | `Hotel`, `Customer`, `Reservation` |
| `hotel_properties.dfy` | `HotelSystemProperties` | round trips, the room-count invariant, resizing, cancellation |
| `persistence.dfy` | `Persistence` | `DataPersistence`, a class whose three fields are the three documents |
| `persistence_properties.dfy` | `PersistenceProperties` | what the queries return, what updates can do |
| `text.dfy` | `Text` | `isspace`, `strip`, `lower` and string `<` on ASCII |
| `convert_numbers.dfy` | `ConvertNumbers` | `decimal_to_binary`, `decimal_to_hexadecimal`, the line filter |
| `word_count.dfy` | `WordCount` | `validate_word`, `count_word_frequencies`, `sort_frequencies` |

How the Python code is modelled:

- **Entities are values.** A Python mutator such as `hotel.reserve_room()` becomes a
  function that returns `Updated(ok, hotel')`.
- **Fields have the types their annotations give** (string, int, float).
  `from_dict` returns `None` when a required field is missing, where Python raises
  `KeyError`.
- **The clock is a parameter.** `datetime.now()` becomes `now`, the `created_date`
  every constructor stamps.
- **Documents.** A document on disk is either a JSON array of objects or `Malformed`:
  a missing file, text that does not decode as JSON, or a top-level value that is not
  an array. Reading a `Malformed` document gives `[]`, as `_read_json_file` does.
- **Loops stay loops.** The loops of the engine, the converters, the line filter, the
  counter and the sort are `while`/`for` loops. Most are proved equal to a recursive
  specification function (`Collect`, `Matching`, `WithoutKey`, `Accepted`, `Tally`),
  and the properties are proved about those functions. The duplicate-key scans of
  `create_*`/`update_*` are stated with the predicate `HasKey` and the position
  `FirstIndex`. The converters are stated by the value of the numeral they build, and
  the sort by its result being a non-decreasing permutation of its input.
- **Parsing is a parameter.** The converter never sees Python's `int()`; the line
  filter takes it as `parseInt`.

Where the documented behaviour and the code disagree, the model follows the code:

- `delete_*` removes every record that has the key, not only the first.
- `update_*` does not check that the new entity's key matches the key it looked
  up, so an update can change a record's key. `PersistenceProperties.UpdateCanDuplicateKeys`
  shows the result: two records with the same key.

## Model

| member | source | states |
|---|---|---|
| HotelSystem.IntField | 6.2/P1/src/hotel_system.py:52-56 | a field passes `isinstance(x, int)` iff it holds a JSON integer or boolean; a boolean reads as 1 or 0 |
| HotelSystem.NumberField | 6.2/P1/src/hotel_system.py:58-60 | a field passes `isinstance(x, (int, float))` iff it holds a JSON integer, real or boolean, read as that real |
| HotelSystem.Hotel.Validate | 6.2/P1/src/hotel_system.py:48-72 | valid iff id, name and location are non-empty, `0 < total_rooms`, `0 <= rooms_available <= total_rooms` and price `>= 0` |
| HotelSystem.Hotel.ToDict | 6.2/P1/src/hotel_system.py:74-84 | the object has exactly the seven stored keys, and each key holds the hotel field of that name: strings for the id, name, location and stamp, integers for the room counts, a real for the price |
| HotelSystem.Hotel.FromDict | 6.2/P1/src/hotel_system.py:86-96 | a record decodes iff id, name and location are strings, `total_rooms` is an integer, `rooms_available` is an integer, null or missing, and the price is a number or missing; each field is read from its key; `created_date` is the clock; a missing or null `rooms_available` becomes `total_rooms`; a missing price becomes 0 |
| HotelSystem.Hotel.Equals | 6.2/P1/src/hotel_system.py:152-156 | two hotels are equal iff the other's stored record carries this one's `hotel_id` |
| HotelSystem.Hotel.ReserveRoom | 6.2/P1/src/hotel_system.py:122-131 | succeeds iff a room is free; then exactly one fewer room is free; nothing else changes |
| HotelSystem.Hotel.CancelReservation | 6.2/P1/src/hotel_system.py:133-143 | succeeds iff a room is taken; then exactly one more room is free; nothing else changes |
| HotelSystem.Hotel.Update | 6.2/P1/src/hotel_system.py:98-120 | name and location are always applied. A total below the occupied count is refused, and rooms and price are kept. Otherwise the occupied count is kept, the price is applied, and the result is the new hotel's validity |
| HotelSystem.Customer.Validate | 6.2/P1/src/hotel_system.py:176-191 | valid iff id, name, email and phone are non-empty and the email contains '@' |
| HotelSystem.Customer.ToDict | 6.2/P1/src/hotel_system.py:193-201 | exactly the five stored keys, each holding the customer field of that name as a string |
| HotelSystem.Customer.FromDict | 6.2/P1/src/hotel_system.py:203-214 | a record decodes iff id, name, email and phone are strings; each is read from its key; `created_date` is the clock |
| HotelSystem.Customer.Equals | 6.2/P1/src/hotel_system.py:236-240 | two customers are equal iff the other's stored record carries this one's `customer_id` |
| HotelSystem.Customer.Update | 6.2/P1/src/hotel_system.py:216-229 | the given fields are applied, the others are kept, and the result is the new customer's validity |
| HotelSystem.Reservation.Validate | 6.2/P1/src/hotel_system.py:270-294 | valid iff the five string fields are non-empty, the status is "active" or "cancelled", and both dates parse with check-in strictly earlier |
| HotelSystem.Reservation.ToDict | 6.2/P1/src/hotel_system.py:296-306 | exactly the seven stored keys, each holding the reservation field of that name as a string, so the engine's filters on `hotel_id`, `customer_id` and `status` see the reservation's own values |
| HotelSystem.Reservation.FromDict | 6.2/P1/src/hotel_system.py:308-321 | a record decodes iff the two ids, the hotel id and both dates are strings and `status` is a string or missing; each field is read from its key; a missing status becomes "active"; `created_date` is the clock |
| HotelSystem.Reservation.Equals | 6.2/P1/src/hotel_system.py:340-344 | two reservations are equal iff the other's stored record carries this one's `reservation_id` |
| HotelSystem.Reservation.Cancel | 6.2/P1/src/hotel_system.py:323-331 | succeeds iff the reservation is active; then its status is "cancelled"; otherwise nothing changes |
| HotelSystemProperties.HotelRoundTrip | 6.2/P1/src/hotel_system.py:74-96 | `from_dict(to_dict(h))` rebuilds every field except the creation stamp, and equals `h` |
| HotelSystemProperties.CustomerRoundTrip | 6.2/P1/src/hotel_system.py:193-214 | `from_dict(to_dict(c))` rebuilds every field except the creation stamp, and equals `c` |
| HotelSystemProperties.ReservationRoundTrip | 6.2/P1/src/hotel_system.py:296-321 | `from_dict(to_dict(r))` rebuilds every field except the creation stamp, and equals `r` |
| HotelSystemProperties.HotelEqualityByKey | 6.2/P1/src/hotel_system.py:152-156 | hotels are equal iff their stored ids are; the other fields do not matter |
| HotelSystemProperties.CustomerEqualityByKey | 6.2/P1/src/hotel_system.py:236-240 | customers are equal iff their stored ids are; the other fields do not matter; the relation is symmetric and transitive |
| HotelSystemProperties.ReservationEqualityByKey | 6.2/P1/src/hotel_system.py:340-344 | reservations are equal iff their stored ids are, so a cancelled copy equals the original; the relation is symmetric and transitive |
| HotelSystemProperties.RoomOperationsKeepCounts | 6.2/P1/src/hotel_system.py:122-143 | reserving and releasing keep `0 <= rooms_available <= total_rooms`, so a valid hotel stays valid |
| HotelSystemProperties.ReserveAndCancelAreInverse | 6.2/P1/src/hotel_system.py:122-143 | a successful reservation is undone by a release, and the other way round |
| HotelSystemProperties.ReserveRoomsSucceed | 6.2/P1/src/hotel_system.py:122-131 | `k` reservations with `k` rooms free all succeed and free `k` fewer rooms |
| HotelSystemProperties.ReserveUntilFull | 6.2/P1/src/hotel_system.py:122-131 | reserving once per free room fills the hotel, and the next reservation fails |
| HotelSystemProperties.CancelReservationsSucceed | 6.2/P1/src/hotel_system.py:133-143 | `k` releases with `k` rooms taken all succeed and free `k` more rooms |
| HotelSystemProperties.CancelUntilEmpty | 6.2/P1/src/hotel_system.py:133-143 | releasing once per taken room empties the hotel, and the next release fails |
| HotelSystemProperties.ResizeKeepsValid | 6.2/P1/src/hotel_system.py:112-120 | resizing a valid hotel to a positive size no smaller than its occupancy succeeds, stays valid, and keeps the occupancy |
| HotelSystemProperties.RejectedResizeKeepsRename | 6.2/P1/src/hotel_system.py:108-114 | a refused resize still leaves the new name and location assigned and the price unchanged |
| HotelSystemProperties.ResizeExamples | 6.2/P1/src/hotel_system.py:112-117 | 100 rooms with 50 free, resized to 120: 70 free; resized to 40: refused |
| HotelSystemProperties.ReserveThenGrowExample | 6.2/P1/src/hotel_system.py:112-131 | three reservations on 100 rooms leave 97 free; growing to 120 rooms leaves 117 free |
| HotelSystemProperties.CancelIsFinal | 6.2/P1/src/hotel_system.py:323-331 | after `cancel` the reservation is not active, a second cancel fails, and validity is kept |
| HotelSystemProperties.ReservationDatesExample | 6.2/P1/src/hotel_system.py:278-285 | a reservation whose check-out date follows its check-in date is valid |
| HotelSystemProperties.ReservationOrderExamples | 6.2/P1/src/hotel_system.py:278-285 | a check-out date equal to or before the check-in date makes the reservation invalid |
| HotelSystemProperties.ReservationBadDateExample | 6.2/P1/src/hotel_system.py:278-285 | a date that does not exist (30 February) makes the reservation invalid |
| HotelSystemProperties.CustomerEmailExample | 6.2/P1/src/hotel_system.py:187-188 | a customer whose email has no '@' is invalid |
| Dates.ParseIsoDate | 6.2/P1/src/hotel_system.py:278-285 | a parsed date is a real calendar date (month lengths, leap years), read from `YYYY-MM-DD` |
| Dates.FormatParses | 6.2/P1/src/hotel_system.py:278-285 | every valid date, written as `YYYY-MM-DD`, parses back to itself |
| Dates.ParseFormats | 6.2/P1/src/hotel_system.py:278-285 | every string that parses is the `YYYY-MM-DD` form of its date |
| Records.FirstIndex | 6.2/P1/src/persistence.py:125-127 | the position of the first record whose key field equals the key |
| Records.WithoutKeyShrinks | 6.2/P1/src/persistence.py:134-140 | filtering out a key shortens the array iff some record has the key; otherwise the array is unchanged |
| Records.WithoutKeyMembers | 6.2/P1/src/persistence.py:136 | the filtered array holds exactly the records without the key |
| Records.WithoutKeyAppend | 6.2/P1/src/persistence.py:136 | the filter works on each part of an array separately, keeping order |
| Records.MatchingMembers | 6.2/P1/src/persistence.py:276 | the records kept by a field filter are exactly those whose field equals the key |
| Persistence.DataPersistence.ReadJsonFile | 6.2/P1/src/persistence.py:44-58 | reading a file gives the items of its document when that is a JSON array, and `[]` for a malformed document |
| Persistence.EnsureFile | 6.2/P1/src/persistence.py:35-42 | a missing document becomes `[]`; an existing one is kept |
| Persistence.FirstDecoded | 6.2/P1/src/persistence.py:91-101 | the result comes from the first record that has the key and decodes. It is `None` iff no record with the key decodes |
| Persistence.DataPersistence.constructor | 6.2/P1/src/persistence.py:12-28 | each document is as found, or `[]` if it did not exist |
| Persistence.DataPersistence.WriteJsonFile | 6.2/P1/src/persistence.py:60-71 | the written document becomes the data; the other two are untouched |
| Persistence.DataPersistence.CreateHotel | 6.2/P1/src/persistence.py:74-89 | succeeds iff the hotel validates and its id is not stored. Then its object is appended; otherwise nothing changes. The other documents are never touched |
| Persistence.DataPersistence.GetHotel | 6.2/P1/src/persistence.py:91-101 | the first stored hotel with the id that decodes, without validation; it has the id |
| Persistence.DataPersistence.GetAllHotels | 6.2/P1/src/persistence.py:103-115 | the stored hotels that decode and validate, in stored order |
| Persistence.DataPersistence.UpdateHotel | 6.2/P1/src/persistence.py:117-130 | succeeds iff the hotel validates and the id is stored. Then the first record with the id is replaced; otherwise nothing changes |
| Persistence.DataPersistence.DeleteHotel | 6.2/P1/src/persistence.py:132-140 | succeeds iff the id is stored. Then every record with the id is removed; otherwise nothing changes |
| Persistence.DataPersistence.CreateCustomer | 6.2/P1/src/persistence.py:143-154 | as `CreateHotel`, for customers |
| Persistence.DataPersistence.GetCustomer | 6.2/P1/src/persistence.py:156-166 | as `GetHotel`, for customers |
| Persistence.DataPersistence.GetAllCustomers | 6.2/P1/src/persistence.py:168-180 | as `GetAllHotels`, for customers |
| Persistence.DataPersistence.UpdateCustomer | 6.2/P1/src/persistence.py:182-196 | as `UpdateHotel`, for customers |
| Persistence.DataPersistence.DeleteCustomer | 6.2/P1/src/persistence.py:198-206 | as `DeleteHotel`, for customers |
| Persistence.DataPersistence.CreateReservation | 6.2/P1/src/persistence.py:209-220 | as `CreateHotel`, for reservations |
| Persistence.DataPersistence.GetReservation | 6.2/P1/src/persistence.py:222-232 | as `GetHotel`, for reservations |
| Persistence.DataPersistence.GetAllReservations | 6.2/P1/src/persistence.py:234-246 | as `GetAllHotels`, for reservations |
| Persistence.DataPersistence.UpdateReservation | 6.2/P1/src/persistence.py:248-259 | as `UpdateHotel`, for reservations |
| Persistence.DataPersistence.DeleteReservation | 6.2/P1/src/persistence.py:261-269 | as `DeleteHotel`, for reservations |
| Persistence.DataPersistence.GetReservationsByHotel | 6.2/P1/src/persistence.py:271-284 | the stored records with the hotel id and a stored status "active", that decode and validate, in stored order |
| Persistence.DataPersistence.GetReservationsByCustomer | 6.2/P1/src/persistence.py:286-299 | the stored records with the customer id, of any status, that decode and validate, in stored order |
| Persistence.DataPersistence.ClearAllData | 6.2/P1/src/persistence.py:301-310 | all three documents become `[]` and the result is true |
| PersistenceProperties.CollectMembers | 6.2/P1/src/persistence.py:103-115 | a query returns exactly the decodings of stored records |
| PersistenceProperties.CollectAppend | 6.2/P1/src/persistence.py:103-115 | results come in stored order: querying a concatenation concatenates the results |
| PersistenceProperties.AllHotelsValid | 6.2/P1/src/persistence.py:103-115 | `get_all_hotels` returns only valid hotels, and returns every stored record that decodes to a valid hotel |
| PersistenceProperties.AllCustomersValid | 6.2/P1/src/persistence.py:168-180 | `get_all_customers` returns only valid customers |
| PersistenceProperties.ByHotelSound | 6.2/P1/src/persistence.py:271-284 | every reservation returned for a hotel belongs to that hotel, is active and is valid |
| PersistenceProperties.ByCustomerSound | 6.2/P1/src/persistence.py:286-299 | every reservation returned for a customer belongs to that customer and is valid |
| PersistenceProperties.MissingStatusExcludedByHotel | 6.2/P1/src/persistence.py:271-300 | any stored reservation without `status` decodes as active; the hotel query never returns it, while the customer query returns it when it is valid |
| PersistenceProperties.GetDoesNotValidate | 6.2/P1/src/persistence.py:91-115 | any stored hotel that decodes but is invalid is returned by `get_hotel` and skipped by `get_all_hotels` |
| PersistenceProperties.InvalidStoredHotelExample | 6.2/P1/src/hotel_system.py:86-96 | a well-typed record with a negative room count decodes to a hotel that is invalid, so such records exist |
| PersistenceProperties.BooleanFieldsKept | 6.2/P1/src/hotel_system.py:52-60 | a hotel stored with JSON `true` as its room count and price passes validation and `get_all_hotels` returns it, as Python's `bool` is an `int` |
| PersistenceProperties.UpdateCanDuplicateKeys | 6.2/P1/src/persistence.py:125-127 | updating hotel `a` with hotel `b` leaves no record with `a`'s id and two with `b`'s |
| PersistenceProperties.ValidReservationDecodes | 6.2/P1/src/persistence.py:276-280 | the stored record of a valid reservation decodes and validates, as that reservation with the reading clock's stamp |
| PersistenceProperties.HotelQuerySkipsInactive | 6.2/P1/src/persistence.py:271-284 | a stored record whose status is not "active" is skipped by the hotel query, and an active, valid record of the hotel after it is returned alone |
| PersistenceProperties.CancelledDropsOutOfHotelQuery | 6.2/P1/src/persistence.py:209-284 | on an empty store, creating two valid active reservations of one hotel and then updating the first to its cancelled copy all succeed, and the hotel query then returns exactly the second reservation |
| Text.Strip | 4.2/P2/source/convertNumbers.py:29 | the result neither starts nor ends with whitespace |
| Text.StripCutsSpace | 4.2/P3/source/wordCount.py:53 | what `strip` keeps is a contiguous slice, and what it cuts off is whitespace |
| Text.StripEmptyIff | 4.2/P3/source/wordCount.py:53 | `strip` leaves nothing iff the string is all whitespace |
| Text.LowerFacts | 4.2/P3/source/wordCount.py:78 | lower-casing maps each character on its own, leaves no upper-case letter, keeps whitespace, and is idempotent |
| Text.LexLessIrreflexive | 4.2/P3/source/wordCount.py:118 | no string is below itself |
| Text.LexLessAsymmetric | 4.2/P3/source/wordCount.py:118 | `a < b` excludes `b < a` |
| Text.LexLessTransitive | 4.2/P3/source/wordCount.py:118 | `a < b` and `b < c` give `a < c` |
| Text.LexLessTotal | 4.2/P3/source/wordCount.py:118 | of two different strings, one is below the other |
| ConvertNumbers.DecimalToBinary | 4.2/P2/source/convertNumbers.py:53-72 | 0 gives "0" and a negative number gives "". A positive number gives digits 0/1 with a leading '1' whose base-2 value is the number, with `2^(L-1) <= n < 2^L` |
| ConvertNumbers.DecimalToHexadecimal | 4.2/P2/source/convertNumbers.py:75-96 | 0 gives "0" and a negative number gives "". A positive number gives digits of "0123456789ABCDEF", the first not '0', whose base-16 value is the number, with `16^(L-1) <= n < 16^L` |
| ConvertNumbers.NumeralBelowPow | 4.2/P2/source/convertNumbers.py:66-72 | an `L`-digit numeral in base `b` is below `b^L` |
| ConvertNumbers.HexCharsDigits | 4.2/P2/source/convertNumbers.py:88-93 | `hex_chars[k]` is the digit for `k`; it is '0' only for `k = 0` |
| ConvertNumbers.DataLinesAreData | 4.2/P2/source/convertNumbers.py:28-31 | every stripped line kept is neither blank nor a `#` comment, and no more lines are kept than read |
| ConvertNumbers.DataLinesSnoc | 4.2/P2/source/convertNumbers.py:28-31 | a blank or comment line adds nothing; any other line adds its stripped form at the end |
| ConvertNumbers.AcceptedNonNegative | 4.2/P2/source/convertNumbers.py:33-41 | the accepted numbers are non-negative and no more than the data lines |
| ConvertNumbers.ReadNumbers | 4.2/P2/source/convertNumbers.py:13-50 | the kept numbers are the data lines that parse to a non-negative integer, in file order. Each is `>= 0`. Kept count plus invalid count is the number of data lines |
| WordCount.ValidateWord | 4.2/P3/source/wordCount.py:41-53 | valid iff the word has a character that is not whitespace (so non-empty) |
| WordCount.RecordWord | 4.2/P3/source/wordCount.py:80-89 | the first entry for the word goes up by one, or an entry with count 1 is appended; the word's count rises by one |
| WordCount.CountWordFrequencies | 4.2/P3/source/wordCount.py:56-96 | the table and the errors are those of the specification `Tally` / `InvalidWords` |
| WordCount.TallyShape | 4.2/P3/source/wordCount.py:80-89 | the table has distinct words, and every count is at least 1 |
| WordCount.TallyLookup | 4.2/P3/source/wordCount.py:69-89 | a word's count is the number of valid input words that lower-case to it |
| WordCount.TallyHasWord | 4.2/P3/source/wordCount.py:69-89 | a word has an entry iff some valid input word lower-cases to it |
| WordCount.TallySum | 4.2/P3/source/wordCount.py:69-96 | the counts plus the number of errors equal the number of input words |
| WordCount.EntriesCountTheirWords | 4.2/P3/source/wordCount.py:69-89 | every entry's count is the number of valid input words that lower-case to its word |
| WordCount.EntriesAreInputWords | 4.2/P3/source/wordCount.py:78-89 | every entry's word is the lower-case form of a valid input word |
| WordCount.ErrorsAreInvalidWords | 4.2/P3/source/wordCount.py:71-75 | every error names an invalid word at its input position |
| WordCount.BumpLookup | 4.2/P3/source/wordCount.py:82-89 | counting a word raises its count by one and leaves every other count alone |
| WordCount.BumpSum | 4.2/P3/source/wordCount.py:82-89 | counting a word raises the total count by one |
| WordCount.SortFrequencies | 4.2/P3/source/wordCount.py:99-122 | the result is a permutation of the entries in non-decreasing word order. With distinct words, as a dictionary has, the order is strictly ascending |
| WordCount.SwapPermutes | 4.2/P3/source/wordCount.py:118-120 | a swap of neighbours permutes the entries and keeps the words distinct |
| WordCount.BubbleStep | 4.2/P3/source/wordCount.py:117-120 | one comparison, with or without a swap, moves a greatest word of the first `j + 2` entries to position `j + 1` and leaves the sorted suffix sorted |
| WordCount.BubblePass | 4.2/P3/source/wordCount.py:116-120 | one pass of the outer loop permutes the entries and grows the sorted suffix by one |

## Left out

- File I/O, `print` and `sys.exit`. Documents are values, the line filter takes the
  file's lines, and the word counter takes the words. `read_file_words`,
  `process_and_display_conversions`, `write_results_to_file`, `print_results` and the
  `main` functions are not part of this model.
- The data directory's location (`data_dir` default, `_ensure_directory`) is not
  modelled. The constructor takes each document as found on disk.
- `datetime.now()`. The creation stamp is the parameter `now`, and its ISO format is
  not modelled.
- `datetime.fromisoformat` accepts more forms than `YYYY-MM-DD` (times, offsets,
  week dates). `Dates.ParseIsoDate` accepts only `YYYY-MM-DD`, with years 1 to 9999.
- HotelSystem.Hotel.FromDict, HotelSystem.Customer.FromDict and
  HotelSystem.Reservation.FromDict return `None` for a stored field of the wrong JSON
  type (a number, boolean or `null` where a string is expected, a string, real or
  `null` where an integer is expected, except that a `null` `rooms_available` means
  `total_rooms`; a string or `null` where a number is
  expected). Python builds an object with that value and `validate()` rejects it. So
  for such records the model's `get_*` skips the record where Python would return an
  invalid object. The `get_all_*` and `get_reservations_by_*` results are the same
  either way, because they validate.
- HotelSystem.IntField and HotelSystem.NumberField read a JSON boolean as 1 or 0,
  as Python's `bool` is an `int` (`PersistenceProperties.BooleanFieldsKept`). A hotel
  read that way and written back by `to_dict` is stored with the number, where Python
  would write the boolean back.
- HotelSystem.NumberField: float prices are Dafny reals. `json.load` also accepts
  `NaN` and `Infinity`, which a real cannot hold; Python's `validate()` accepts an
  infinite price and refuses `NaN`. Neither is modelled, nor is float rounding.
- A non-object element inside a stored array (a Python `AttributeError` on `.get`)
  is not modelled: stored arrays hold objects.
- `isinstance` checks in `validate()` on values of other Python types: every field
  has its annotated type.
- Persistence.DataPersistence.WriteJsonFile always succeeds. Python returns false
  only when `json.dump` raises `KeyError`/`TypeError`/`ValueError`, which cannot
  happen for the JSON values modelled. Other I/O errors propagate in Python and are
  not modelled.
- Persistence.DataPersistence.ReadJsonFile: `_read_json_file` turns only JSON decode
  errors, a missing file, `KeyError`, `TypeError` and `ValueError` into `[]`. Other
  `OSError`s (`PermissionError`, `IsADirectoryError`) propagate out of every engine
  operation in Python. The model has no such failure: every document is readable.
- Object identity and aliasing: a Python `Hotel` object updated in place after it
  was stored is not modelled. The entities are values, and the engine stores their
  `to_dict` snapshots.
- Concurrency and files changed between calls by other processes.
- Python's `int()` is the parameter `parseInt` of `ConvertNumbers.ReadNumbers`.
  Which strings it accepts (signs, underscores, surrounding whitespace) is not
  modelled.
- Text.IsSpace, Text.Strip and Text.Lower cover ASCII only. Unicode whitespace and
  non-ASCII case mapping (`str.split`, `str.strip`, `str.lower`) are not modelled.
  `Text.LexLess` compares code points as Python does.
- `validate_word` on a non-string and the `TypeError`/`AttributeError` branch of
  `count_word_frequencies` are not modelled: words are strings. Error messages are
  `WordError` values holding the position and the word, not formatted text.
- `hotel_system.py`'s `__str__` methods and the abstract `BaseEntity` are not
  modelled.
