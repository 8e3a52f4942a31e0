# Hotel saga participant — a Dafny model

This project models the hotel participant of a travel-booking saga. The
participant receives saga messages from an orchestrator and handles three of
their states through `HotelHandler`:

- `Begin` places a temporary hold on a room (`TempBookHotel`).
- `PaymentAccept` is meant to confirm a booking (`BookHotel`). In this code it is answered by a payment stub.
- `HotelTimedRollback` is meant to roll back a hold (`TempRollback`). It is answered by the same payment stub.

Each handler answers by publishing the rewritten message.

The admission rule of `TempBookHotel`:

- It counts the bookings of the requested room and hotel whose range overlaps the request.
- If that count is below the room's `Amount`, it inserts a hold, stamped with the current time, and accepts (`HotelTimedAccept`).
- Otherwise it sees how many of those bookings are expired holds, meaning holds older than one minute.
  - If the room is full even without them, it refuses (`HotelTimedFail`).
  - If not, it deletes exactly those expired holds, inserts the new hold and accepts.
- An unknown room type or hotel is refused without a date refresh.

`BookHotel` and `TempRollback` are stubs in this code base, and neither touches the tables. Their random draw is `Next(0, 1)`, which always yields 0, so every reply they publish says `PaymentFailed`. `TempRollback` replies only to a hotel request with a hotel-request body (HotelHandler.cs:191-192); any other message gets no reply. `BookHotel` has no such guard and replies to every message.

The project also models the three read-only HTTP endpoints of Program.cs:

- `POST /hotels`: a room search filtered by party size, city and bookings, then grouped by hotel.
- `POST /hotel`: one hotel with its rooms.
- `GET /locations`: countries, each with its distinct cities.

Layout, one module per file:

- `wrappers.dfy` (`Wrappers`): Option and Result.
- `models.dfy` (`Models`): the entities of Models/HotelDbContext.cs with their field defaults. Time is an integer count of DateTime ticks.
- `messages.dfy` (`Messages`): the saga `Message` value and its states, types and bodies.
- `storage.dfy` (`Storage`): the queries the handler runs:
  - the room and hotel look-ups;
  - the overlap and expiry predicates and their counts;
  - the deletion of expired holds;
  - two capacity invariants:
    - `WithinCapacity` is per (room key, hotel key) pair: the bookings that carry one room key and one hotel key never occupy an instant more than `Amount` times. This is what the capacity check of `TempBookHotel` itself keeps.
    - `RoomWithinCapacity` is per room, whatever hotel key a booking carries.
  - `KeysAsRecorded`: every booking of a room carries the hotel key that `TempBookHotel` records for it. Under that, the pair invariant gives the per-room one.
- `saga.dfy` (`Saga`): each handler as a function from the tables, the message and the environment to the new tables and the reply, plus the dispatch and whole runs. This module holds the capacity and reply proofs.
- `handler.dfy` (`Handler`): the `HotelHandler` class. Its methods update a Bookings table and a published-message log in place, as the source does. Each is proved to agree with the `Saga` functions.
- `sequences.dfy` (`Sequences`): LINQ's `Distinct` and first-match index.
- `queries.dfy` (`Queries`): the three endpoints. The two `foreach` loops that build results are methods proved against reference functions.

`TempBookHotel` looks the hotel up by name, separately from the room. With two hotels of one name, a hold can therefore be counted and recorded under another hotel's key than the room's own (see Findings). `Saga.TempBook` and the handler follow the code as written. Per-room capacity is proved for every table that meets `KeysAsRecorded`, an empty table included. This rests on the look-ups returning the same row for the same name on every request, the first in one fixed table order. The source's `FirstOrDefaultAsync` has no `OrderBy`, so the database does not promise that. If the pick varies between requests, two hotels of one name overbook even from an empty table (`Saga.VaryingPickOverbooks`). `Saga.TempBookOwnHotel` is the corrected step.

In the saga, this participant is expected to confirm a hold when payment is accepted (`PaymentAccept`) and to delete it on `HotelTimedRollback`. The code provides only the two payment stubs for these, and the model follows the code.

## Model

| member | source | states |
|---|---|---|
| Messages.NextHop | HotelService/HotelHandler.cs:103-106 | the reply keeps transaction id and creation date, has message id one higher, and the given type, state and body |
| Storage.FindRoom | HotelService/HotelHandler.cs:93-96 | None exactly when no room has that type in a hotel of that name; otherwise a catalog room of that type whose hotel has that name |
| Storage.FindHotel | HotelService/HotelHandler.cs:97-98 | None exactly when no hotel has that name; otherwise a catalog hotel with that name |
| Storage.HotelOf | HotelService/HotelHandler.cs:94 | a room's hotel is the catalog hotel with the room's hotel key; None exactly when there is none |
| Storage.Overlaps | HotelService/HotelHandler.cs:116-119 | no contract of its own: the `booked` filter (same room key, same hotel key, ranges overlap); counted by Storage.OverlapCount and used by Saga.TempBookFreeCapacity, Storage.CoverCountWithinOverlap and Queries.BookedOverlappingBoundsAdmission |
| Storage.OverlapCount | HotelService/HotelHandler.cs:113-120 | no contract of its own: `booked.Count()`; its behaviour is stated by Storage.RemoveExpiredOverlapCount, Storage.CoverCountWithinOverlap and Saga.TempBookCapacityBound |
| Storage.Expired | HotelService/HotelHandler.cs:147-150 | no contract of its own: a hold more than one minute old; stated through Storage.RemoveExpired and Saga.TempBookReclaim |
| Storage.ExpiredCount | HotelService/HotelHandler.cs:147-150 | no contract of its own: `temporary.Count()`; Storage.RemoveExpired and Storage.RemoveExpiredOverlapCount state that it counts exactly the rows deleted |
| Storage.RemoveExpired | HotelService/HotelHandler.cs:147-165 | a row stays exactly when it was in the table and is not an expired overlapping hold; the table shrinks by exactly the expired count |
| Storage.RemoveExpiredOverlapCount | HotelService/HotelHandler.cs:147-165 | expired holds are among the overlapping bookings; after deleting them the overlap count is the old count minus the expired count |
| Storage.CoverCountWithinOverlap | HotelService/HotelHandler.cs:113-120 | the bookings occupying any instant of the requested range are no more than the overlapping bookings |
| Storage.CoverCountRemoveExpired | HotelService/HotelHandler.cs:165 | deleting expired holds never raises any room's occupation at any instant |
| Storage.RecordedHotelKey | HotelService/HotelHandler.cs:93-98 | the hotel key a hold for a room is recorded under: None exactly when the room has no hotel; otherwise the key of a hotel bearing the name of the room's own hotel |
| Storage.RecordedKeyIsOwnKey | HotelService/HotelHandler.cs:97-98 | when no two hotels share a name, the recorded key is the room's own hotel key |
| Storage.OwnKeysAreRecorded | HotelService/HotelHandler.cs:93-98 | when no two hotels share a name and every room has its hotel, bookings that carry their rooms' own keys carry the recorded keys |
| Storage.Reclaimable | HotelService/HotelHandler.cs:147-149 | no contract of its own: an overlapping expired hold, the rows the `temporary` query selects and line 165 deletes; stated by Storage.RemoveExpired and Storage.RemoveExpiredOverlapCount |
| Storage.CoverCountWithinRoomCover | HotelService/HotelHandler.cs:116-119 | the bookings of a room under one hotel key never outnumber the bookings of that room under any key, at any instant |
| Storage.RoomCoverIsCover | HotelService/HotelHandler.cs:116-119 | when every booking of a room carries one hotel key, counting under that key counts all of the room's bookings |
| Storage.RoomCapacityBoundsPairs | HotelService/HotelHandler.cs:113-122 | the per-room invariant implies the per-pair invariant |
| Storage.RoomCapacityFromRecordedKeys | HotelService/HotelHandler.cs:113-127 | the per-pair invariant plus recorded keys on every booking implies the per-room invariant |
| Storage.RoomCapacityFromOwnKeys | HotelService/HotelHandler.cs:113-127 | the per-pair invariant plus each booking carrying its room's own hotel key implies the per-room invariant |
| Saga.Dispatch | HotelService/HotelHandler.cs:75-81 | no contract of its own: the state switch; stated by Saga.DispatchTable and Saga.StepIgnoresOtherStates |
| Saga.DispatchTable | HotelService/HotelHandler.cs:75-81 | Begin selects TempBookHotel, PaymentAccept selects BookHotel and HotelTimedRollback selects TempRollback, each if and only if |
| Saga.Step | HotelService/HotelHandler.cs:67-83 | no contract of its own: one turn of the read loop; stated by Saga.StepIgnoresOtherStates, Saga.StepReplyIsNextHop and Saga.StepStore |
| Saga.Run | HotelService/HotelHandler.cs:67-83 | no contract of its own: the read loop over a sequence of requests; stated by Saga.RunPreservesCapacity, Saga.RunPreservesRoomCapacity, Saga.RunFromEmptyTable and Saga.RunPublishesAtMostOnePerRequest |
| Saga.StepIgnoresOtherStates | HotelService/HotelHandler.cs:80 | a message in any other state changes nothing and gets no reply |
| Saga.TempBook | HotelService/HotelHandler.cs:85-187 | no contract of its own: TempBookHotel as written; stated by Saga.TempBookIgnoresNonRequests, Saga.TempBookUnknown, Saga.TempBookFreeCapacity, Saga.TempBookNoCapacity, Saga.TempBookReclaim, Saga.TempBookCapacityBound, Saga.TempBookPreservesCapacity and Saga.TempBookPreservesRoomCapacity |
| Saga.IsHotelRequest | HotelService/HotelHandler.cs:87-88 | no contract of its own: the type and body check and the cast that succeeds; stated by Saga.TempBookIgnoresNonRequests and Saga.TempRollbackReply |
| Saga.NewHold | HotelService/HotelHandler.cs:124-133 | no contract of its own: the new hold row, also written at lines 166-175; stated by Saga.RequestedHold |
| Saga.AcceptReply | HotelService/HotelHandler.cs:136-140 | no contract of its own: the accept reply, also written at lines 178-182, built from Messages.NextHop and dated now; stated by Saga.TempBookFreeCapacity and Saga.TempBookReclaim |
| Saga.Admit | HotelService/HotelHandler.cs:122 | no contract of its own: the guards at lines 122 and 150 deciding hold, refuse or reclaim; stated by Saga.TempBookFreeCapacity, Saga.TempBookNoCapacity and Saga.TempBookReclaim |
| Saga.Reserve | HotelService/HotelHandler.cs:113-187 | no contract of its own: the capacity check once room and hotel are known; stated by Saga.ReservePreservesCapacity and Saga.ReserveRows |
| Saga.TempBookIgnoresNonRequests | HotelService/HotelHandler.cs:87-88 | a message that is not a hotel request, has no body, or has a body of another kind changes nothing and gets no reply |
| Saga.TempBookUnknown | HotelService/HotelHandler.cs:99-111 | unknown room or hotel: tables unchanged; reply is the next hop as a HotelTimedFail payment request with creation date unchanged |
| Saga.RequestedHold | HotelService/HotelHandler.cs:124-133 | the inserted hold is temporary, stamped now, carries the saga's transaction id, room, hotel and range, and takes the next identity value |
| Saga.TempBookFreeCapacity | HotelService/HotelHandler.cs:113-146 | fewer overlapping bookings than the room's amount: exactly one hold is appended, and the reply is a HotelTimedAccept request dated now |
| Saga.TempBookNoCapacity | HotelService/HotelHandler.cs:147-163 | full even without expired holds: tables unchanged, and the reply is a HotelTimedFail request dated now |
| Saga.TempBookReclaim | HotelService/HotelHandler.cs:147-187 | otherwise exactly the expired overlapping holds are deleted and every other row is kept; one hold is appended; the reply is a HotelTimedAccept request dated now |
| Saga.TempBookCapacityBound | HotelService/HotelHandler.cs:113-187 | whenever the request is accepted, the overlapping bookings of that room and hotel afterwards number at most its amount |
| Saga.AdmittedHoldFits | HotelService/HotelHandler.cs:122-133 | at any instant, appending a hold that the guard admitted keeps the (room key, hotel key) pair within the room's amount |
| Saga.ReservePreservesCapacity | HotelService/HotelHandler.cs:113-187 | whichever catalog room and hotel the capacity check is given, no (room key, hotel key) pair is occupied beyond the room's amount afterwards if none was before |
| Saga.ReserveRows | HotelService/HotelHandler.cs:113-187 | every row afterwards was there before, or is the hold for the given room under the given hotel's key |
| Saga.TempBookPreservesCapacity | HotelService/HotelHandler.cs:113-187 | per (room key, hotel key) pair: if no pair was occupied beyond its room's amount at any instant before a TempBookHotel step, none is after it |
| Saga.TempBookKeepsKeysAsRecorded | HotelService/HotelHandler.cs:93-133 | if every booking carries the hotel key recorded for its room, so does every booking after a TempBookHotel step |
| Saga.TempBookPreservesRoomCapacity | HotelService/HotelHandler.cs:85-187 | per room: on a table whose bookings carry their recorded keys, no room is occupied beyond its amount after a step if none was before, and the keys stay recorded |
| Saga.DuplicateHotelNameOverbooks | HotelService/HotelHandler.cs:93-127 | two hotels named "X", and room 7 of the second with amount 1, already booked under its own key for [0, 10): a request for "X"/"Deluxe" over [0, 10) is accepted, the hold carries the first hotel's key, and room 7 is occupied twice at instant 5 |
| Saga.TempBookOwnHotel | HotelService/HotelHandler.cs:85-187 | no contract of its own: TempBookHotel as evidently intended, counting and recording under the room's own hotel; stated by Saga.OwnHotelRefusesDuplicateName, Saga.TempBookOwnHotelPreservesRoomCapacity and Saga.TempBookOwnHotelAgrees |
| Saga.OwnHotelRefusesDuplicateName | HotelService/HotelHandler.cs:93-127 | on that same input the corrected step leaves the tables unchanged and replies HotelTimedFail |
| Saga.TempBookOwnHotelPreservesRoomCapacity | HotelService/HotelHandler.cs:85-187 | the corrected step keeps the per-room invariant on every table whose bookings carry their room's own hotel key, and keeps the keys own |
| Saga.TempBookOwnHotelAgrees | HotelService/HotelHandler.cs:93-98 | where no two hotels share a name, the corrected step is the step as written |
| Saga.RandomNext | HotelService/HotelHandler.cs:196 | `Next(min, max)` lies in [min, max) |
| Saga.StubAlwaysFails | HotelService/HotelHandler.cs:196-200 | the stubs' draw `Next(0, 1)` always selects PaymentFailed |
| Saga.PaymentResult | HotelService/HotelHandler.cs:196-200 | no contract of its own: the `rnd.Next(0, 1) switch`, also at lines 217-221; stated by Saga.StubAlwaysFails |
| Saga.PaymentStubReply | HotelService/HotelHandler.cs:202-206 | no contract of its own: the stubs' reply, also written at lines 223-227; stated by Saga.BookHotelReply and Saga.TempRollbackReply |
| Saga.TempRollback | HotelService/HotelHandler.cs:189-211 | no contract of its own: the rollback stub; stated by Saga.TempRollbackReply |
| Saga.BookHotel | HotelService/HotelHandler.cs:213-232 | no contract of its own: the confirmation stub; stated by Saga.BookHotelReply |
| Saga.BookHotelReply | HotelService/HotelHandler.cs:213-232 | BookHotel changes no table; it replies with the next hop as a failed PaymentReply dated now, whatever the message carries |
| Saga.TempRollbackReply | HotelService/HotelHandler.cs:189-211 | TempRollback changes no table; for a hotel request it replies as BookHotel does, and otherwise not at all |
| Saga.StepReplyIsNextHop | HotelService/HotelHandler.cs:75-232 | every reply has the request's message id plus one and the same transaction id |
| Saga.StepStore | HotelService/HotelHandler.cs:75-81 | only a Begin message can change the tables |
| Saga.RunPreservesCapacity | HotelService/HotelHandler.cs:67-83 | per (room key, hotel key) pair: the pair invariant holds after any sequence of requests if it held before |
| Saga.RunPreservesRoomCapacity | HotelService/HotelHandler.cs:67-83 | per room: on a table whose bookings carry their recorded keys, the per-room invariant and the recorded keys hold after any sequence of requests |
| Saga.RunFromEmptyTable | HotelService/HotelHandler.cs:67-83 | when every room's amount is at least 0, a run from an empty Bookings table never occupies a room beyond its amount, whatever requests arrive, given look-ups that return the same row for the same name on every request |
| Saga.VaryingPickOverbooks | HotelService/HotelHandler.cs:93-127 | from an empty table, with room 7 (amount 1) in the second of two hotels named "X": one request is admitted under the first hotel and the second under the other, both are accepted, and room 7 is occupied twice |
| Saga.RunPublishesAtMostOnePerRequest | HotelService/HotelHandler.cs:67-83 | a run publishes at most one message per request read |
| Handler.HotelHandler.constructor | HotelService/HotelHandler.cs:54-65 | the handler starts on the given tables with nothing published |
| Handler.HotelHandler.Publish | HotelService/HotelHandler.cs:108 | the message is appended to the published log |
| Handler.HotelHandler.InsertHold | HotelService/HotelHandler.cs:124-134 | the table gains exactly the new hold at its end, and the identity value moves on by one |
| Handler.HotelHandler.TempBookHotel | HotelService/HotelHandler.cs:85-187 | the new tables and the published log are those of Saga.TempBook; per-room capacity and the recorded keys are kept |
| Handler.HotelHandler.TempRollback | HotelService/HotelHandler.cs:189-211 | the published log grows by Saga.TempRollback's reply, and no table changes |
| Handler.HotelHandler.BookHotel | HotelService/HotelHandler.cs:213-232 | the published log grows by Saga.BookHotel's reply, and no table changes |
| Handler.HotelHandler.Handle | HotelService/HotelHandler.cs:75-81 | one message is handled as Saga.Step says |
| Handler.HotelHandler.HandleHotels | HotelService/HotelHandler.cs:67-83 | after reading the requests in order, the tables and the log are those of Saga.Run; per-room capacity and the recorded keys are kept |
| Sequences.FirstIndex | Program.cs:132 | the index of the first occurrence |
| Sequences.Distinct | Program.cs:123 | exactly the same elements, each once |
| Sequences.DistinctKeepsFirstOccurrences | Program.cs:123 | Distinct lists the elements in the order of their first occurrences |
| Queries.BookedAsWritten | Program.cs:111-114 | no contract of its own: the booking sub-query as written; stated by Queries.FullyBookedRoomStillListed and Queries.BookedAsWrittenIgnoresEarlierStarts |
| Queries.Qualifies | Program.cs:104-114 | no contract of its own: the where clause for one room; Queries.Matching and Queries.MatchedRooms state that a room is listed exactly when it qualifies |
| Queries.Matching | Program.cs:103-115 | the result holds exactly the catalog rooms that pass the where clause, each with its hotel |
| Queries.MatchedRooms | Program.cs:103-120 | fails exactly when a participant key 1-4 is missing or Cities is null; otherwise the result holds exactly the qualifying rooms, each with its hotel |
| Queries.FullyBookedRoomStillListed | Program.cs:111-114 | a room of amount 1 whose one booking covers exactly the requested range is still listed |
| Queries.BookedAsWrittenIgnoresEarlierStarts | Program.cs:111-114 | for every input: when no booking of the room starts after the requested end, the sub-query counts none, and a room of amount at least 1 passes the booking test |
| Queries.BookedOverlapping | Program.cs:111-114 | no contract of its own: the sub-query as evidently intended, counting the room's bookings that overlap the range; stated by Queries.BookedOverlappingBoundsAdmission and Queries.FullyBookedRoomExcludedAsIntended |
| Queries.BookedOverlappingBoundsAdmission | Program.cs:111-114 | the handler's overlap count under any hotel key is at most the intended count, so a room that passes the intended test would be held outright |
| Queries.FullyBookedRoomExcludedAsIntended | Program.cs:111-114 | on the fully booked example the intended count is 1 where the count as written is 0 |
| Queries.ToRoomHttp | Program.cs:131 | no contract of its own: the room projection, also at line 162; stated by Queries.RoomsOfHotel and Queries.RoomsOf |
| Queries.HotelEntry | Program.cs:130-140 | no contract of its own: one hotel entry of the response; stated by Queries.GroupedHotelsProperties |
| Queries.RoomsOfHotel | Program.cs:131 | a projected room is listed under a hotel id exactly when some result of that hotel projects to it |
| Queries.FirstWithHotel | Program.cs:132 | the first result that belongs to the hotel |
| Queries.GroupedHotelsProperties | Program.cs:123-141 | for the grouping function GroupedHotels: hotel ids are distinct; every listed room is a result of its hotel; every result is listed under its hotel |
| Queries.GroupByHotel | Program.cs:127-141 | the foreach builds exactly GroupedHotels, whose properties Queries.GroupedHotelsProperties states |
| Queries.Hotels | Program.cs:96-146 | fails as MatchedRooms does; otherwise hotel ids are distinct and a room is listed under its hotel exactly when it qualifies |
| Queries.RoomsOf | Program.cs:162 | a projected room is listed exactly when some room of the hotel projects to it |
| Queries.Hotel | Program.cs:157-173 | None exactly when no hotel has the id; otherwise that hotel's id, name, city and country, with exactly its rooms |
| Queries.CitiesIn | Program.cs:187-198 | a city is in a country's list exactly when a hotel in that country is in that city |
| Queries.CitiesInAbsent | Program.cs:193-196 | a country that no hotel has has an empty city list |
| Queries.GroupCities | Program.cs:189-196 | after one hotel more, every key of the Dictionary maps to the cities of that country in table order |
| Queries.GroupStep | Program.cs:187-198 | one pass of the first foreach: the Dictionary keys, their insertion order and their city lists stay those of the hotels seen |
| Queries.GroupByCountry | Program.cs:185-198 | the first foreach: keys in order of first appearance, each mapped to its cities in table order |
| Queries.CityEntries | Program.cs:204-210 | no contract of its own: a country's distinct cities as entries whose Id and Label are the city; stated by Queries.LocationsCities |
| Queries.CountryEntry | Program.cs:204-210 | no contract of its own: one country entry with its city entries; stated by Queries.LocationsCountries and Queries.LocationsCities |
| Queries.LocationsCountries | Program.cs:200-211 | for the reference function LocationsOf: each country appears once, and a country appears exactly when some hotel is in it |
| Queries.LocationsCities | Program.cs:202-211 | for LocationsOf: every Id equals its Label; a country's cities appear once each, and a city appears exactly when a hotel of that country is in it |
| Queries.Locations | Program.cs:178-214 | the two loops build exactly LocationsOf, whose properties Queries.LocationsCountries and Queries.LocationsCities state |

## Left out

- Concurrency: the six-permit semaphore, the write and read locks, `Task.Run`, the channels and cancellation. Each handler is one atomic step, and steps run in the order the requests are read. A permit is never returned on the ignored-state path (HotelHandler.cs:80) or on the early returns (:87, :191), and concurrent handlers can interleave; neither is modelled.
- Handler.HotelHandler.HandleHotels: Run and HandleHotels describe the handlers as if the write lock were released after each step. In the source `_dbWriteLock`, taken at HotelHandler.cs:90, is never released. Every TempBookHotel after the first that gets past lines 87-88 therefore waits at line 90 forever and keeps its permit. Once six permits are held that way, HandleHotels itself stops at line 73 and reads no further request.
- Handler.HotelHandler.TempBookHotel: `Bookings.Add` followed by `CommitAsync` is modelled as an insert of the hold into the table. As written it never reaches the table. `SaveChangesAsync` is called on the handler's write context only once, while seeding (HotelService.cs:113, on the context built at :62 and handed over at :73). `Add` with `CommitAsync` saves nothing, so `booked.Count()` (HotelHandler.cs:120) never sees a hold. The model inserts the row anyway, which is what the capacity check evidently relies on.
- Storage.FindHotel: `FirstOrDefaultAsync` without `OrderBy` is modelled as the first matching row of one fixed table order, the same on every request; Storage.FindRoom likewise. The database does not promise which row comes back, or the same one each time. When hotel names repeat, Saga.TempBookPreservesRoomCapacity, Saga.RunPreservesRoomCapacity, Saga.RunFromEmptyTable and the handler's per-room ensures depend on that fixed choice; Saga.VaryingPickOverbooks shows what happens without it.
- Transactions: `CommitAsync` applies the step, and `RollbackAsync` leaves the tables as they were.
- Clock: `DateTime.Now` is read several times within one handler in the source. The model uses one `now` per step.
- Random draws: they are the `seed` parameter. The `Task.Delay` before each stub is not modelled.
- The invalid cast: `(HotelRequest)message.Body` throws for a body of another kind. The model then publishes nothing and changes nothing, and the permit leak that follows is not modelled.
- Message ids: `MessageId` is an unbounded integer. Its width belongs to a serialization package that is not part of this model, so wrap-around is not modelled.
- Messaging and storage plumbing: RabbitMQ, JSON (de)serialization, the seed loading and the dead `Initialize` (HotelService/HotelService.cs). Also the connection setup, the migrations and the process bootstrap of Program.cs, including `WeatherForecast`, which uses floating point.
- Queries.Hotels: request parsing is left out. The date range is passed already parsed, because `DateTime.Parse`/`ToUniversalTime` are library calls.
- Queries.Hotel: the `int.Parse` of the `/hotel` id is left out; the id arrives as an integer.
- Ids stay integers: their `ToString` rendering and the JSON serialization of `/locations` are not modelled.
- Queries.MatchedRooms: the participant keys are evaluated in the order 4, 3, 2, 1 and then Cities. Which exception the translated query actually raises first is left to EF Core. `Cities == null` makes the query throw, although the comment at Models/HttpRequests.cs:49 says a null list means every city.
- Queries.FullyBookedRoomStillListed: the booking sub-query at Program.cs:111-114 is modelled as written, and the `/hotels` model uses it. It counts only bookings that start after the requested end, so a fully booked room is still offered (see Findings).
- Queries.Matching: `AsNoTracking().Distinct()` at Program.cs:120 is the identity on table rows with distinct keys, so the model keeps the matching rows in table order.
- Queries.Locations: enumeration order is assumed insertion order for the Dictionary and the source order for the tables.
  - `locations.Distinct()` on Dictionary entries is the identity.
  - `DistinctBy(p => p.Id)` on city entries whose Id is the city name is `Distinct` on the names.
  - The final `travels.Distinct()` compares entries by reference and keeps them all.
- Room price: `RoomDb` in Models/HotelDbContext.cs declares no `Price`, but Program.cs reads `room.Price` and the migration adds an integer `Price` column. The model gives rooms an integer `price` that defaults to 0. The HTTP DTO's `double` price is not modelled.
- Logging is left out.

## Findings

Each row names a member that models the code as written, with the input that shows the discrepancy, and a corrected member with the intended property proved. `Saga.TempBook`, the handler and the `/hotels` model keep the code as written. The corrected members stand beside them so that the intended behaviour is stated and proved.

| source | as written | input that shows it | evidently intended | confidence | as-written member | corrected member |
|---|---|---|---|---|---|---|
| HotelService/HotelHandler.cs:93-127 | the hotel is looked up by name apart from the room, and the hold is counted and recorded under the first hotel of that name | hotels 1 and 2 both named "X"; room 7 "Deluxe" of hotel 2 with amount 1, booked under hotel 2 for [0, 10); a request for "X"/"Deluxe" over [0, 10) is accepted, and room 7 is then occupied twice | count and record the hold under the found room's own hotel, so that no room is occupied beyond its amount; Saga.TempBookOwnHotelPreservesRoomCapacity proves this of the corrected step | not executed | Saga.DuplicateHotelNameOverbooks | Saga.TempBookOwnHotel |
| Program.cs:111-114 | the booking sub-query counts bookings with `BookFrom > end`, which start after the requested range | room 7 with amount 1, one booking for [10, 20), a search over [10, 20): the room is still listed | count the bookings that overlap the range (`BookFrom < end && BookTo > start`), as the handler does at HotelHandler.cs:118-119; Queries.BookedOverlappingBoundsAdmission and Queries.FullyBookedRoomExcludedAsIntended prove this of the corrected count, and Queries.BookedAsWrittenIgnoresEarlierStarts states the defect for all inputs | not executed | Queries.FullyBookedRoomStillListed | Queries.BookedOverlapping |
