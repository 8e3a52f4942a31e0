/**
 * The read-only query endpoints of Program.cs: /hotels (room search grouped
 * by hotel), /hotel (one hotel with its rooms) and /locations (countries and
 * their cities). Record ids stay integers here; the endpoints render them
 * with ToString.
 */
module Queries {
  import opened Wrappers
  import opened Models
  import opened Storage
  import opened Sequences

  /** The body of POST /hotels; the date range is passed apart, already parsed. */
  datatype HotelsRequest = HotelsRequest(cities: Option<seq<string>>, participants: map<int, int>)

  /** Why the /hotels query throws: a participant key the where clause reads is missing, or Cities is null. */
  datatype QueryError = MissingParticipant(key: int) | NullCities

  /** A Rooms row with its Hotel navigation loaded (`Include(p => p.Hotel)`). */
  datatype RoomWithHotel = RoomWithHotel(room: RoomDb, hotel: HotelDb)

  datatype RoomHttp = RoomHttp(roomId: int, name: string, price: int)

  datatype HotelHttp = HotelHttp(hotelId: int, name: string, city: string, country: string, rooms: seq<RoomHttp>)

  /** A country with its cities, or (locations None) a city; `labelText` is the Label property. */
  datatype TravelLocation = TravelLocation(id: string, labelText: string, locations: Option<seq<TravelLocation>>)

  // ---------------------------------------------------------------------
  // POST /hotels: the room filter (Program.cs:103-115)

  /**
   * The booking sub-query of Program.cs:111-114 as written: bookings of the
   * room that START AFTER the requested end and end after its start. Bookings
   * that overlap the requested range are not counted.
   */
  function BookedAsWritten(bs: seq<Booking>, roomId: int, start: Time, end: Time): nat
  {
    if bs == [] then 0
    else
      var b := bs[|bs| - 1];
      BookedAsWritten(bs[..|bs| - 1], roomId, start, end)
      + (if b.bookFrom > end && b.bookTo > start && b.roomId == roomId then 1 else 0)
  }

  /** Participants[4] adults, [3] children, [2] ten-year-olds, [1] younger children. */
  predicate HasParticipantKeys(p: map<int, int>)
  {
    1 in p && 2 in p && 3 in p && 4 in p
  }

  /** The where clause of Program.cs:104-114 for one room. */
  predicate Qualifies(cat: Catalog, bookings: seq<Booking>, room: RoomDb, cities: seq<string>,
                      p: map<int, int>, start: Time, end: Time)
    requires HasParticipantKeys(p)
  {
    && room.minAdults <= p[4] <= room.maxAdults
    && room.minChildren <= p[3] <= room.maxChildren
    && room.max10yo >= p[2]
    && room.maxLesserChildren >= p[1]
    && HotelOf(cat, room).Some? && HotelOf(cat, room).value.city in cities
    && BookedAsWritten(bookings, room.roomDbId, start, end) < room.amount
  }

  /** The qualifying rows of `rooms`, in table order, each with its hotel. */
  function Matching(cat: Catalog, bookings: seq<Booking>, rooms: seq<RoomDb>, cities: seq<string>,
                    p: map<int, int>, start: Time, end: Time): (r: seq<RoomWithHotel>)
    requires HasParticipantKeys(p)
    ensures forall x :: x in r ==>
              x.room in rooms && Qualifies(cat, bookings, x.room, cities, p, start, end)
              && HotelOf(cat, x.room) == Some(x.hotel)
    ensures forall room :: room in rooms && Qualifies(cat, bookings, room, cities, p, start, end) ==>
              RoomWithHotel(room, HotelOf(cat, room).value) in r
  {
    if rooms == [] then []
    else
      var room := rooms[|rooms| - 1];
      assert rooms == rooms[..|rooms| - 1] + [room];
      Matching(cat, bookings, rooms[..|rooms| - 1], cities, p, start, end)
      + (if Qualifies(cat, bookings, room, cities, p, start, end) then [RoomWithHotel(room, HotelOf(cat, room).value)] else [])
  }

  /** The rooms query of Program.cs:103-120, or the exception that evaluating it throws. */
  function MatchedRooms(cat: Catalog, bookings: seq<Booking>, request: HotelsRequest, start: Time, end: Time): (r: Result<seq<RoomWithHotel>, QueryError>)
    ensures r.Failure? <==> !HasParticipantKeys(request.participants) || request.cities.None?
    ensures r.Success? ==> forall x :: x in r.value ==>
              x.room in cat.rooms && HotelOf(cat, x.room) == Some(x.hotel)
              && Qualifies(cat, bookings, x.room, request.cities.value, request.participants, start, end)
    ensures r.Success? ==> forall room ::
              (room in cat.rooms && Qualifies(cat, bookings, room, request.cities.value, request.participants, start, end))
              ==> RoomWithHotel(room, HotelOf(cat, room).value) in r.value
  {
    var p := request.participants;
    if 4 !in p then Failure(MissingParticipant(4))
    else if 3 !in p then Failure(MissingParticipant(3))
    else if 2 !in p then Failure(MissingParticipant(2))
    else if 1 !in p then Failure(MissingParticipant(1))
    else if request.cities.None? then Failure(NullCities)
    else Success(Matching(cat, bookings, cat.rooms, request.cities.value, p, start, end))
  }

  /**
   * The sub-query as written lets a fully booked room through: one room, one
   * booking covering exactly the requested range, and the room is still listed.
   */
  lemma FullyBookedRoomStillListed()
    ensures var hotel := NEW_HOTEL_DB.(hotelDbId := 1, city := "Rome");
            var room := NEW_ROOM_DB.(roomDbId := 7, amount := 1, minAdults := 1, maxAdults := 2,
                                     minChildren := 0, maxChildren := 0, max10yo := 0,
                                     maxLesserChildren := 0, hotelId := 1);
            var cat := Catalog([hotel], [room]);
            var booking := NEW_BOOKING.(hotelId := 1, roomId := 7, temporary := 0, bookFrom := 10, bookTo := 20);
            var request := HotelsRequest(Some(["Rome"]), map[1 := 0, 2 := 0, 3 := 0, 4 := 2]);
            && OverlapCount([booking], 7, 1, 10, 20) == room.amount
            && MatchedRooms(cat, [booking], request, 10, 20) == Success([RoomWithHotel(room, hotel)])
  {
    var hotel := NEW_HOTEL_DB.(hotelDbId := 1, city := "Rome");
    var room := NEW_ROOM_DB.(roomDbId := 7, amount := 1, minAdults := 1, maxAdults := 2,
                             minChildren := 0, maxChildren := 0, max10yo := 0,
                             maxLesserChildren := 0, hotelId := 1);
    var cat := Catalog([hotel], [room]);
    assert HotelOf(cat, room) == Some(hotel);
    var booking := NEW_BOOKING.(hotelId := 1, roomId := 7, temporary := 0, bookFrom := 10, bookTo := 20);
    var p := map[1 := 0, 2 := 0, 3 := 0, 4 := 2];
    assert [room][..0] == [] && [booking][..0] == [];
    assert BookedAsWritten([booking], 7, 10, 20) == 0;
    assert Qualifies(cat, [booking], room, ["Rome"], p, 10, 20);
    assert Matching(cat, [booking], [room], ["Rome"], p, 10, 20) == [RoomWithHotel(room, hotel)];
    assert OverlapCount([booking], 7, 1, 10, 20) == 1;
  }

  /**
   * For every input: the sub-query as written ignores each booking of the
   * room that starts no later than the requested end, so while the room has
   * no other booking it counts none, and a room with at least one unit passes
   * the booking test however fully the range is booked.
   */
  lemma {:induction false} BookedAsWrittenIgnoresEarlierStarts(bs: seq<Booking>, room: RoomDb, start: Time, end: Time)
    requires forall b :: b in bs && b.roomId == room.roomDbId ==> b.bookFrom <= end
    ensures BookedAsWritten(bs, room.roomDbId, start, end) == 0
    ensures room.amount >= 1 ==> BookedAsWritten(bs, room.roomDbId, start, end) < room.amount
  {
    if bs != [] {
      assert bs[|bs| - 1] in bs;
      forall b | b in bs[..|bs| - 1] && b.roomId == room.roomDbId
        ensures b.bookFrom <= end
      {
        assert b in bs;
      }
      BookedAsWrittenIgnoresEarlierStarts(bs[..|bs| - 1], room, start, end);
    }
  }

  /** The sub-query as evidently intended: the room's bookings that overlap [start, end). */
  function BookedOverlapping(bs: seq<Booking>, roomId: int, start: Time, end: Time): nat
  {
    if bs == [] then 0
    else
      var b := bs[|bs| - 1];
      BookedOverlapping(bs[..|bs| - 1], roomId, start, end)
      + (if b.bookFrom < end && b.bookTo > start && b.roomId == roomId then 1 else 0)
  }

  /**
   * The intended test lists a room only when TempBookHotel would admit a hold
   * on it for the same range outright: the handler's count, under any hotel
   * key, is no larger.
   */
  lemma {:induction false} BookedOverlappingBoundsAdmission(bs: seq<Booking>, room: RoomDb, hotelId: int, start: Time, end: Time)
    ensures OverlapCount(bs, room.roomDbId, hotelId, start, end) <= BookedOverlapping(bs, room.roomDbId, start, end)
    ensures BookedOverlapping(bs, room.roomDbId, start, end) < room.amount
            ==> OverlapCount(bs, room.roomDbId, hotelId, start, end) < room.amount
  {
    if bs != [] {
      BookedOverlappingBoundsAdmission(bs[..|bs| - 1], room, hotelId, start, end);
    }
  }

  /** The intended test excludes the fully booked room that the test as written lists. */
  lemma FullyBookedRoomExcludedAsIntended()
    ensures var booking := NEW_BOOKING.(hotelId := 1, roomId := 7, temporary := 0, bookFrom := 10, bookTo := 20);
            BookedOverlapping([booking], 7, 10, 20) == 1 && BookedAsWritten([booking], 7, 10, 20) == 0
  {
    var booking := NEW_BOOKING.(hotelId := 1, roomId := 7, temporary := 0, bookFrom := 10, bookTo := 20);
    assert [booking][..0] == [];
  }

  // ---------------------------------------------------------------------
  // POST /hotels: grouping the rooms by hotel (Program.cs:123-141)

  function ToRoomHttp(room: RoomDb): RoomHttp
  {
    RoomHttp(room.roomDbId, room.name, room.price)
  }

  /** `results.Select(p => p.Hotel.HotelDbId)`. */
  function HotelIds(results: seq<RoomWithHotel>): seq<int>
  {
    seq(|results|, k requires 0 <= k < |results| => results[k].hotel.hotelDbId)
  }

  /** `results.Where(p => p.Hotel.HotelDbId == hotelId).Select(...)`: that hotel's matched rooms. */
  function RoomsOfHotel(results: seq<RoomWithHotel>, hotelId: int): (r: seq<RoomHttp>)
    ensures forall rh :: rh in r <==> exists x :: x in results && x.hotel.hotelDbId == hotelId && ToRoomHttp(x.room) == rh
  {
    if results == [] then []
    else
      var x := results[|results| - 1];
      assert results == results[..|results| - 1] + [x];
      RoomsOfHotel(results[..|results| - 1], hotelId) + (if x.hotel.hotelDbId == hotelId then [ToRoomHttp(x.room)] else [])
  }

  /** `results.First(p => p.Hotel.HotelDbId == hotelId)`, as an index. */
  function FirstWithHotel(results: seq<RoomWithHotel>, hotelId: int): (i: nat)
    requires hotelId in HotelIds(results)
    ensures i < |results| && results[i].hotel.hotelDbId == hotelId
    ensures forall j :: 0 <= j < i ==> results[j].hotel.hotelDbId != hotelId
  {
    var i := FirstIndex(HotelIds(results), hotelId);
    assert forall j :: 0 <= j < i ==> HotelIds(results)[j] == results[j].hotel.hotelDbId;
    i
  }

  /** The HotelHttp built at Program.cs:130-140 for one hotel id. */
  function HotelEntry(results: seq<RoomWithHotel>, hotelId: int): HotelHttp
    requires hotelId in HotelIds(results)
  {
    var hot := results[FirstWithHotel(results, hotelId)].hotel;
    HotelHttp(hotelId, hot.name, hot.city, hot.country, RoomsOfHotel(results, hotelId))
  }

  /**
   * What the foreach of Program.cs:127-141 builds: one HotelHttp per distinct
   * hotel id of the results, in order of first appearance.
   */
  function GroupedHotels(results: seq<RoomWithHotel>): seq<HotelHttp>
  {
    var ids := Distinct(HotelIds(results));
    seq(|ids|, k requires 0 <= k < |ids| => HotelEntry(results, ids[k]))
  }

  /**
   * Each hotel appears once, every room listed under a hotel is a result of
   * that hotel, and every result is listed under its hotel.
   */
  lemma GroupedHotelsProperties(results: seq<RoomWithHotel>)
    ensures var hotels := GroupedHotels(results);
            && (forall i, j :: 0 <= i < j < |hotels| ==> hotels[i].hotelId != hotels[j].hotelId)
            && (forall k, rh :: 0 <= k < |hotels| && rh in hotels[k].rooms ==>
                  exists x :: x in results && x.hotel.hotelDbId == hotels[k].hotelId && ToRoomHttp(x.room) == rh)
            && (forall x :: x in results ==>
                  exists k :: 0 <= k < |hotels| && hotels[k].hotelId == x.hotel.hotelDbId && ToRoomHttp(x.room) in hotels[k].rooms)
  {
    var hotels := GroupedHotels(results);
    var ids := Distinct(HotelIds(results));
    forall x | x in results
      ensures exists k :: 0 <= k < |hotels| && hotels[k].hotelId == x.hotel.hotelDbId && ToRoomHttp(x.room) in hotels[k].rooms
    {
      var j :| 0 <= j < |results| && results[j] == x;
      assert HotelIds(results)[j] == x.hotel.hotelDbId;
      var k := FirstIndex(ids, x.hotel.hotelDbId);
      assert hotels[k].hotelId == x.hotel.hotelDbId;
    }
  }

  /** The foreach of Program.cs:127-141. */
  method GroupByHotel(results: seq<RoomWithHotel>) returns (hotels: seq<HotelHttp>)
    ensures hotels == GroupedHotels(results)
  {
    var hotelIds := Distinct(HotelIds(results));
    ghost var expected := GroupedHotels(results);
    hotels := [];
    var i := 0;
    while i < |hotelIds|
      invariant 0 <= i <= |hotelIds| == |expected|
      invariant hotels == expected[..i]
    {
      var hotelId := hotelIds[i];
      var rooms := RoomsOfHotel(results, hotelId);
      var hot := results[FirstWithHotel(results, hotelId)].hotel;
      var entry := HotelHttp(hotelId, hot.name, hot.city, hot.country, rooms);
      assert entry == expected[i];
      hotels := hotels + [entry];
      i := i + 1;
    }
    assert expected[..|expected|] == expected;
  }

  /** POST /hotels (Program.cs:96-146): the matching rooms grouped under their hotels. */
  method Hotels(cat: Catalog, bookings: seq<Booking>, request: HotelsRequest, start: Time, end: Time)
    returns (r: Result<seq<HotelHttp>, QueryError>)
    ensures r.Failure? <==> !HasParticipantKeys(request.participants) || request.cities.None?
    ensures r.Success? ==> forall i, j :: 0 <= i < j < |r.value| ==> r.value[i].hotelId != r.value[j].hotelId
    ensures r.Success? ==> forall k, rh :: 0 <= k < |r.value| && rh in r.value[k].rooms ==>
              (exists room :: room in cat.rooms && room.hotelId == r.value[k].hotelId && ToRoomHttp(room) == rh
                 && Qualifies(cat, bookings, room, request.cities.value, request.participants, start, end))
    ensures r.Success? ==> forall room ::
              (room in cat.rooms && Qualifies(cat, bookings, room, request.cities.value, request.participants, start, end))
              ==> exists k :: 0 <= k < |r.value| && r.value[k].hotelId == room.hotelId && ToRoomHttp(room) in r.value[k].rooms
  {
    var found := MatchedRooms(cat, bookings, request, start, end);
    if found.Failure? {
      return Failure(found.error);
    }
    var results := found.value;
    var hotels := GroupByHotel(results);
    GroupedHotelsProperties(results);
    forall room | room in cat.rooms
        && Qualifies(cat, bookings, room, request.cities.value, request.participants, start, end)
      ensures exists k :: 0 <= k < |hotels| && hotels[k].hotelId == room.hotelId && ToRoomHttp(room) in hotels[k].rooms
    {
      assert RoomWithHotel(room, HotelOf(cat, room).value) in results;
    }
    r := Success(hotels);
  }

  // ---------------------------------------------------------------------
  // POST /hotel (Program.cs:150-174)

  /** `dbHotel.Rooms.Select(...)`: the rooms whose hotel key is hotelId, projected. */
  function RoomsOf(rooms: seq<RoomDb>, hotelId: int): (r: seq<RoomHttp>)
    ensures forall rh :: rh in r <==> exists room :: room in rooms && room.hotelId == hotelId && ToRoomHttp(room) == rh
  {
    if rooms == [] then []
    else
      var room := rooms[|rooms| - 1];
      assert rooms == rooms[..|rooms| - 1] + [room];
      RoomsOf(rooms[..|rooms| - 1], hotelId) + (if room.hotelId == hotelId then [ToRoomHttp(room)] else [])
  }

  /** The hotel with key id and exactly its rooms, or None (the endpoint answers null). */
  function Hotel(cat: Catalog, id: int): (r: Option<HotelHttp>)
    ensures r.None? <==> forall h :: h in cat.hotels ==> h.hotelDbId != id
    ensures r.Some? ==> r.value.hotelId == id
    ensures r.Some? ==> exists h :: (h in cat.hotels && h.hotelDbId == id
              && r.value.name == h.name && r.value.city == h.city && r.value.country == h.country)
    ensures r.Some? ==> forall rh :: rh in r.value.rooms <==>
              exists room :: room in cat.rooms && room.hotelId == id && ToRoomHttp(room) == rh
  {
    var i := FirstHotelWithId(cat.hotels, id);
    if i == |cat.hotels| then None
    else
      var dbHotel := cat.hotels[i];
      Some(HotelHttp(dbHotel.hotelDbId, dbHotel.name, dbHotel.city, dbHotel.country, RoomsOf(cat.rooms, dbHotel.hotelDbId)))
  }

  // ---------------------------------------------------------------------
  // GET /locations (Program.cs:178-215)

  /** The country of each hotel, in table order. */
  function Countries(hotels: seq<HotelDb>): seq<string>
  {
    seq(|hotels|, k requires 0 <= k < |hotels| => hotels[k].country)
  }

  /** The cities of the hotels in `country`, in table order, repeats included. */
  function CitiesIn(hotels: seq<HotelDb>, country: string): (r: seq<string>)
    ensures forall c :: c in r <==> exists h :: h in hotels && h.country == country && h.city == c
  {
    if hotels == [] then []
    else
      var h := hotels[|hotels| - 1];
      assert hotels == hotels[..|hotels| - 1] + [h];
      CitiesIn(hotels[..|hotels| - 1], country) + (if h.country == country then [h.city] else [])
  }

  lemma CitiesInAppend(hotels: seq<HotelDb>, h: HotelDb, country: string)
    ensures CitiesIn(hotels + [h], country) == CitiesIn(hotels, country) + (if h.country == country then [h.city] else [])
  {
    assert (hotels + [h])[..|hotels|] == hotels;
  }

  /** A country without a hotel has no cities. */
  lemma CitiesInAbsent(hotels: seq<HotelDb>, country: string)
    ensures country !in Countries(hotels) ==> CitiesIn(hotels, country) == []
  {
    if CitiesIn(hotels, country) != [] {
      var c := CitiesIn(hotels, country)[0];
      assert c in CitiesIn(hotels, country);
      var h :| h in hotels && h.country == country && h.city == c;
      var n :| 0 <= n < |hotels| && hotels[n] == h;
      assert Countries(hotels)[n] == country;
    }
  }

  /** The Dictionary and its key order are those of the hotels seen so far. */
  ghost predicate Grouped(seen: seq<HotelDb>, locations: map<string, seq<string>>, order: seq<string>)
  {
    && order == Distinct(Countries(seen))
    && (forall c :: c in locations <==> c in order)
    && (forall c :: c in locations ==> locations[c] == CitiesIn(seen, c))
  }

  /** One hotel more: the city lists of the Dictionary after the first foreach's body. */
  lemma GroupCities(seen: seq<HotelDb>, location: HotelDb, before: map<string, seq<string>>, after: map<string, seq<string>>)
    requires forall c :: c in Countries(seen) ==> c in before
    requires forall c :: c in before ==> before[c] == CitiesIn(seen, c)
    requires after == if location.country in before
                      then before[location.country := before[location.country] + [location.city]]
                      else before[location.country := [location.city]]
    ensures forall c :: c in after ==> after[c] == CitiesIn(seen + [location], c)
  {
    forall c | c in after
      ensures after[c] == CitiesIn(seen + [location], c)
    {
      CitiesInAppend(seen, location, c);
      if c != location.country {
        assert after[c] == before[c];
      } else if c !in before {
        CitiesInAbsent(seen, c);
      }
    }
  }

  /** One hotel more: the Dictionary after the first foreach's body (Program.cs:188-197). */
  lemma GroupStep(seen: seq<HotelDb>, location: HotelDb, before: map<string, seq<string>>, order: seq<string>)
    requires Grouped(seen, before, order)
    ensures location.country in before ==>
              Grouped(seen + [location], before[location.country := before[location.country] + [location.city]], order)
    ensures location.country !in before ==>
              Grouped(seen + [location], before[location.country := [location.city]], order + [location.country])
  {
    assert Countries(seen + [location]) == Countries(seen) + [location.country];
    DistinctAppend(Countries(seen), location.country);
    var after := if location.country in before
                 then before[location.country := before[location.country] + [location.city]]
                 else before[location.country := [location.city]];
    GroupCities(seen, location, before, after);
  }

  /** A city entry of /locations: Id and Label both the city name. */
  function CityEntries(cities: seq<string>): seq<TravelLocation>
  {
    seq(|cities|, k requires 0 <= k < |cities| => TravelLocation(cities[k], cities[k], None))
  }

  /** The /locations entry of one country: Id and Label the country, then its distinct cities. */
  function CountryEntry(hotels: seq<HotelDb>, country: string): TravelLocation
  {
    TravelLocation(country, country, Some(CityEntries(Distinct(CitiesIn(hotels, country)))))
  }

  /**
   * What GET /locations returns: the hotels grouped into countries, in order
   * of first appearance, each with its distinct cities in order of first appearance.
   */
  function LocationsOf(hotels: seq<HotelDb>): seq<TravelLocation>
  {
    var countries := Distinct(Countries(hotels));
    seq(|countries|, k requires 0 <= k < |countries| => CountryEntry(hotels, countries[k]))
  }

  predicate ListsLocation(entries: seq<TravelLocation>, id: string)
  {
    exists k :: 0 <= k < |entries| && entries[k].id == id
  }

  predicate HasHotelIn(hotels: seq<HotelDb>, country: string)
  {
    exists h :: h in hotels && h.country == country
  }

  predicate HasHotelInCity(hotels: seq<HotelDb>, country: string, city: string)
  {
    exists h :: h in hotels && h.country == country && h.city == city
  }

  /** Each country appears once, and exactly the countries that have a hotel appear. */
  lemma LocationsCountries(hotels: seq<HotelDb>)
    ensures forall i, j :: 0 <= i < j < |LocationsOf(hotels)| ==> LocationsOf(hotels)[i].id != LocationsOf(hotels)[j].id
    ensures forall c :: ListsLocation(LocationsOf(hotels), c) <==> HasHotelIn(hotels, c)
  {
    var travels := LocationsOf(hotels);
    var countries := Distinct(Countries(hotels));
    forall c ensures ListsLocation(travels, c) <==> HasHotelIn(hotels, c)
    {
      if HasHotelIn(hotels, c) {
        var h :| h in hotels && h.country == c;
        var n :| 0 <= n < |hotels| && hotels[n] == h;
        assert Countries(hotels)[n] == c;
        var k := FirstIndex(countries, c);
        assert travels[k].id == c;
      }
      if ListsLocation(travels, c) {
        var k :| 0 <= k < |travels| && travels[k].id == c;
        assert c in Countries(hotels);
        var n :| 0 <= n < |hotels| && Countries(hotels)[n] == c;
        assert hotels[n] in hotels;
      }
    }
  }

  /** A country's cities are exactly the cities of its hotels, each once, every entry with Id equal to Label. */
  lemma LocationsCities(hotels: seq<HotelDb>, k: nat)
    requires k < |LocationsOf(hotels)|
    ensures var entry := LocationsOf(hotels)[k];
            && entry.id == entry.labelText && entry.locations.Some?
            && (forall e :: e in entry.locations.value ==> e.id == e.labelText && e.locations.None?)
            && (forall i, j :: 0 <= i < j < |entry.locations.value| ==> entry.locations.value[i].id != entry.locations.value[j].id)
            && (forall c :: ListsLocation(entry.locations.value, c) <==> HasHotelInCity(hotels, entry.id, c))
  {
    var entry := LocationsOf(hotels)[k];
    var cities := Distinct(CitiesIn(hotels, entry.id));
    var entries := CityEntries(cities);
    assert entry.locations == Some(entries);
    forall c ensures ListsLocation(entries, c) <==> HasHotelInCity(hotels, entry.id, c)
    {
      if ListsLocation(entries, c) {
        var n :| 0 <= n < |entries| && entries[n].id == c;
        assert cities[n] == c;
        assert c in CitiesIn(hotels, entry.id);
      }
      if HasHotelInCity(hotels, entry.id, c) {
        var h :| h in hotels && h.country == entry.id && h.city == c;
        assert c in CitiesIn(hotels, entry.id);
        var n := FirstIndex(cities, c);
        assert entries[n].id == c;
      }
    }
  }

  /**
   * The first foreach of GET /locations (Program.cs:185-198): a Dictionary
   * from each country to the cities of its hotels, in table order. `order`
   * is the Dictionary's key order, which is insertion order.
   */
  method GroupByCountry(hotels: seq<HotelDb>) returns (locations: map<string, seq<string>>, order: seq<string>)
    ensures order == Distinct(Countries(hotels))
    ensures forall c :: c in locations <==> c in order
    ensures forall c :: c in locations ==> locations[c] == CitiesIn(hotels, c)
  {
    locations := map[];
    order := [];
    var i := 0;
    while i < |hotels|
      invariant 0 <= i <= |hotels|
      invariant Grouped(hotels[..i], locations, order)
    {
      var location := hotels[i];
      assert hotels[..i + 1] == hotels[..i] + [location];
      GroupStep(hotels[..i], location, locations, order);
      if location.country in locations {
        locations := locations[location.country := locations[location.country] + [location.city]];
      } else {
        locations := locations[location.country := [location.city]];
        order := order + [location.country];
      }
      i := i + 1;
    }
    assert hotels[..|hotels|] == hotels;
  }

  /**
   * GET /locations (Program.cs:178-215). `DistinctBy(p => p.Id)` on city
   * entries whose Id is the city name is Distinct on the names; the JSON
   * rendering is not modelled.
   */
  method Locations(hotels: seq<HotelDb>) returns (travels: seq<TravelLocation>)
    ensures travels == LocationsOf(hotels)
  {
    var locations, order := GroupByCountry(hotels);
    ghost var expected := LocationsOf(hotels);
    travels := [];
    var j := 0;
    while j < |order|
      invariant 0 <= j <= |order| == |expected|
      invariant travels == expected[..j]
    {
      var country := order[j];
      assert country in locations;
      var cities := CityEntries(Distinct(locations[country]));
      var entry := TravelLocation(country, country, Some(cities));
      assert entry == expected[j];
      travels := travels + [entry];
      j := j + 1;
    }
    assert expected[..|expected|] == expected;
  }
}
