/**
 * The queries HotelHandler.TempBookHotel runs against the Hotels, Rooms and
 * Bookings tables, and the counting facts the capacity proofs rest on.
 */
module Storage {
  import opened Wrappers
  import opened Models

  /** A hold is reclaimable by a competing request once it is older than this. */
  const HOLD_TTL: Time := 60 * TICKS_PER_SECOND

  /** The Hotels and Rooms tables, which the handler only reads. */
  datatype Catalog = Catalog(hotels: seq<HotelDb>, rooms: seq<RoomDb>)

  /** RoomDbId is the key of Rooms. */
  predicate UniqueRoomIds(cat: Catalog)
  {
    forall r1, r2 :: r1 in cat.rooms && r2 in cat.rooms && r1.roomDbId == r2.roomDbId ==> r1 == r2
  }

  // ---------------------------------------------------------------------
  // Look-ups (FirstOrDefault in database order)

  /** Index of the first hotel with key `id`, or |hotels| when there is none. */
  function FirstHotelWithId(hotels: seq<HotelDb>, id: int): (i: nat)
    ensures i <= |hotels|
    ensures forall j :: 0 <= j < i ==> hotels[j].hotelDbId != id
    ensures i < |hotels| ==> hotels[i].hotelDbId == id
  {
    if hotels == [] then 0
    else if hotels[0].hotelDbId == id then 0
    else 1 + FirstHotelWithId(hotels[1..], id)
  }

  /** Index of the first hotel called `name`, or |hotels| when there is none. */
  function FirstHotelNamed(hotels: seq<HotelDb>, name: string): (i: nat)
    ensures i <= |hotels|
    ensures forall j :: 0 <= j < i ==> hotels[j].name != name
    ensures i < |hotels| ==> hotels[i].name == name
  {
    if hotels == [] then 0
    else if hotels[0].name == name then 0
    else 1 + FirstHotelNamed(hotels[1..], name)
  }

  /** The hotel a room's Hotel navigation loads: the Hotels row with the room's hotel key. */
  function HotelOf(cat: Catalog, room: RoomDb): (h: Option<HotelDb>)
    ensures h.None? <==> forall x :: x in cat.hotels ==> x.hotelDbId != room.hotelId
    ensures h.Some? ==> h.value in cat.hotels && h.value.hotelDbId == room.hotelId
  {
    var i := FirstHotelWithId(cat.hotels, room.hotelId);
    if i < |cat.hotels| then Some(cat.hotels[i]) else None
  }

  /** `Hotels.FirstOrDefault(p => p.Name.Equals(hotelName))`. */
  function FindHotel(cat: Catalog, hotelName: string): (h: Option<HotelDb>)
    ensures h.None? <==> forall x :: x in cat.hotels ==> x.name != hotelName
    ensures h.Some? ==> h.value in cat.hotels && h.value.name == hotelName
  {
    var i := FirstHotelNamed(cat.hotels, hotelName);
    if i < |cat.hotels| then Some(cat.hotels[i]) else None
  }

  /** The room filter of HotelHandler.cs:95-96: this room type, in a hotel of this name. */
  predicate IsRequestedRoom(cat: Catalog, room: RoomDb, roomType: string, hotelName: string)
  {
    room.name == roomType && HotelOf(cat, room).Some? && HotelOf(cat, room).value.name == hotelName
  }

  /** Index of the first room satisfying IsRequestedRoom, or |rooms| when there is none. */
  function FirstRequestedRoom(cat: Catalog, rooms: seq<RoomDb>, roomType: string, hotelName: string): (i: nat)
    ensures i <= |rooms|
    ensures forall j :: 0 <= j < i ==> !IsRequestedRoom(cat, rooms[j], roomType, hotelName)
    ensures i < |rooms| ==> IsRequestedRoom(cat, rooms[i], roomType, hotelName)
  {
    if rooms == [] then 0
    else if IsRequestedRoom(cat, rooms[0], roomType, hotelName) then 0
    else 1 + FirstRequestedRoom(cat, rooms[1..], roomType, hotelName)
  }

  /** `Rooms.Include(p => p.Hotel).FirstOrDefault(...)` of HotelHandler.cs:93-96. */
  function FindRoom(cat: Catalog, roomType: string, hotelName: string): (r: Option<RoomDb>)
    ensures r.None? <==> forall x :: x in cat.rooms ==> !IsRequestedRoom(cat, x, roomType, hotelName)
    ensures r.Some? ==> r.value in cat.rooms && IsRequestedRoom(cat, r.value, roomType, hotelName)
  {
    var i := FirstRequestedRoom(cat, cat.rooms, roomType, hotelName);
    if i < |cat.rooms| then Some(cat.rooms[i]) else None
  }

  // ---------------------------------------------------------------------
  // Overlap, expiry and counting

  /** The `booked` query of HotelHandler.cs:116-119: same room and hotel, and the ranges overlap. */
  predicate Overlaps(b: Booking, roomId: int, hotelId: int, from: Time, to: Time)
  {
    b.roomId == roomId && b.hotelId == hotelId && b.bookFrom < to && b.bookTo > from
  }

  /** A hold older than HOLD_TTL at `now`; a hold exactly HOLD_TTL old is not expired. */
  predicate Expired(b: Booking, now: Time)
  {
    b.temporary == 1 && now - b.temporaryDt > HOLD_TTL
  }

  /** The rows the `temporary` query of HotelHandler.cs:147-149 selects and 165 deletes. */
  predicate Reclaimable(b: Booking, roomId: int, hotelId: int, from: Time, to: Time, now: Time)
  {
    Overlaps(b, roomId, hotelId, from, to) && Expired(b, now)
  }

  /** `booked.Count()`. */
  function OverlapCount(bs: seq<Booking>, roomId: int, hotelId: int, from: Time, to: Time): nat
  {
    if bs == [] then 0
    else OverlapCount(bs[..|bs| - 1], roomId, hotelId, from, to)
         + (if Overlaps(bs[|bs| - 1], roomId, hotelId, from, to) then 1 else 0)
  }

  /** `temporary.Count()`. */
  function ExpiredCount(bs: seq<Booking>, roomId: int, hotelId: int, from: Time, to: Time, now: Time): nat
  {
    if bs == [] then 0
    else ExpiredCount(bs[..|bs| - 1], roomId, hotelId, from, to, now)
         + (if Reclaimable(bs[|bs| - 1], roomId, hotelId, from, to, now) then 1 else 0)
  }

  /**
   * `temporary.ExecuteDeleteAsync()`: the table without the reclaimable holds.
   * Exactly those rows go; every other row stays.
   */
  function RemoveExpired(bs: seq<Booking>, roomId: int, hotelId: int, from: Time, to: Time, now: Time): (r: seq<Booking>)
    ensures forall b :: b in r <==> b in bs && !Reclaimable(b, roomId, hotelId, from, to, now)
    ensures |r| == |bs| - ExpiredCount(bs, roomId, hotelId, from, to, now)
  {
    if bs == [] then []
    else
      var last := bs[|bs| - 1];
      assert bs == bs[..|bs| - 1] + [last];
      RemoveExpired(bs[..|bs| - 1], roomId, hotelId, from, to, now)
      + (if Reclaimable(last, roomId, hotelId, from, to, now) then [] else [last])
  }

  /** A booking occupies its room at instant t when t lies in [bookFrom, bookTo). */
  predicate Covers(b: Booking, roomId: int, hotelId: int, t: Time)
  {
    b.roomId == roomId && b.hotelId == hotelId && b.bookFrom <= t < b.bookTo
  }

  /** How many bookings of this room and hotel occupy instant t. */
  function CoverCount(bs: seq<Booking>, roomId: int, hotelId: int, t: Time): nat
  {
    if bs == [] then 0
    else CoverCount(bs[..|bs| - 1], roomId, hotelId, t)
         + (if Covers(bs[|bs| - 1], roomId, hotelId, t) then 1 else 0)
  }

  /**
   * The capacity check's own invariant, per (room key, hotel key) pair: the
   * bookings that carry a room's key and any one hotel key never occupy an
   * instant more than the room's `amount` times. It says nothing about a room
   * booked under two hotel keys; RoomWithinCapacity does.
   */
  ghost predicate WithinCapacity(cat: Catalog, bs: seq<Booking>)
  {
    forall r, hotelId, t :: r in cat.rooms ==> CoverCount(bs, r.roomDbId, hotelId, t) <= r.amount
  }

  /** A booking of this room, under whatever hotel key, occupies instant t. */
  predicate OccupiesRoom(b: Booking, roomId: int, t: Time)
  {
    b.roomId == roomId && b.bookFrom <= t < b.bookTo
  }

  /** How many bookings of this room, whatever hotel key they carry, occupy instant t. */
  function RoomCoverCount(bs: seq<Booking>, roomId: int, t: Time): nat
  {
    if bs == [] then 0
    else RoomCoverCount(bs[..|bs| - 1], roomId, t) + (if OccupiesRoom(bs[|bs| - 1], roomId, t) then 1 else 0)
  }

  /** Per-room capacity: no room is ever occupied more than `amount` times at one instant. */
  ghost predicate RoomWithinCapacity(cat: Catalog, bs: seq<Booking>)
  {
    forall r, t :: r in cat.rooms ==> RoomCoverCount(bs, r.roomDbId, t) <= r.amount
  }

  /** No two hotels share a name. */
  predicate UniqueHotelNames(cat: Catalog)
  {
    forall h1, h2 :: h1 in cat.hotels && h2 in cat.hotels && h1.name == h2.name ==> h1 == h2
  }

  /**
   * The hotel key TempBookHotel records on a booking of `room`: the key of the
   * first hotel bearing the name of the room's own hotel (HotelHandler.cs:97-98,
   * 126), which with two hotels of one name need not be the room's own key.
   */
  function RecordedHotelKey(cat: Catalog, room: RoomDb): (k: Option<int>)
    ensures k.None? <==> HotelOf(cat, room).None?
    ensures k.Some? ==> exists h :: h in cat.hotels && h.name == HotelOf(cat, room).value.name && h.hotelDbId == k.value
  {
    match HotelOf(cat, room)
    case None => None
    case Some(own) => Some(FindHotel(cat, own.name).value.hotelDbId)
  }

  /** With hotel names unique, the recorded key is the room's own hotel key. */
  lemma RecordedKeyIsOwnKey(cat: Catalog, room: RoomDb)
    requires UniqueHotelNames(cat)
    requires HotelOf(cat, room).Some?
    ensures RecordedHotelKey(cat, room) == Some(room.hotelId)
  {
    var own := HotelOf(cat, room).value;
    assert FindHotel(cat, own.name).value == own;
  }

  /** Every booking of a catalog room carries the hotel key TempBookHotel records for that room. */
  ghost predicate KeysAsRecorded(cat: Catalog, bs: seq<Booking>)
  {
    forall b, r :: b in bs && r in cat.rooms && b.roomId == r.roomDbId ==> RecordedHotelKey(cat, r) == Some(b.hotelId)
  }

  /** Every booking of a catalog room carries that room's own hotel key. */
  ghost predicate KeysOwn(cat: Catalog, bs: seq<Booking>)
  {
    forall b, r :: b in bs && r in cat.rooms && b.roomId == r.roomDbId ==> b.hotelId == r.hotelId
  }

  /**
   * Where no two hotels share a name, a table whose bookings carry their
   * rooms' own hotel keys carries the recorded keys too.
   */
  lemma OwnKeysAreRecorded(cat: Catalog, bs: seq<Booking>)
    requires UniqueHotelNames(cat)
    requires forall r :: r in cat.rooms ==> HotelOf(cat, r).Some?
    requires KeysOwn(cat, bs)
    ensures KeysAsRecorded(cat, bs)
  {
    forall b, r | b in bs && r in cat.rooms && b.roomId == r.roomDbId
      ensures RecordedHotelKey(cat, r) == Some(b.hotelId)
    {
      RecordedKeyIsOwnKey(cat, r);
    }
  }

  lemma OverlapCountAppend(bs: seq<Booking>, b: Booking, roomId: int, hotelId: int, from: Time, to: Time)
    ensures OverlapCount(bs + [b], roomId, hotelId, from, to)
            == OverlapCount(bs, roomId, hotelId, from, to) + (if Overlaps(b, roomId, hotelId, from, to) then 1 else 0)
  {
    assert (bs + [b])[..|bs|] == bs;
  }

  lemma CoverCountAppend(bs: seq<Booking>, b: Booking, roomId: int, hotelId: int, t: Time)
    ensures CoverCount(bs + [b], roomId, hotelId, t)
            == CoverCount(bs, roomId, hotelId, t) + (if Covers(b, roomId, hotelId, t) then 1 else 0)
  {
    assert (bs + [b])[..|bs|] == bs;
  }

  /** Deleting the reclaimable holds lowers the overlap count by exactly their number. */
  lemma {:induction false} RemoveExpiredOverlapCount(bs: seq<Booking>, roomId: int, hotelId: int, from: Time, to: Time, now: Time)
    ensures ExpiredCount(bs, roomId, hotelId, from, to, now) <= OverlapCount(bs, roomId, hotelId, from, to)
    ensures OverlapCount(RemoveExpired(bs, roomId, hotelId, from, to, now), roomId, hotelId, from, to)
            == OverlapCount(bs, roomId, hotelId, from, to) - ExpiredCount(bs, roomId, hotelId, from, to, now)
  {
    if bs != [] {
      var prefix, last := bs[..|bs| - 1], bs[|bs| - 1];
      var kept := RemoveExpired(prefix, roomId, hotelId, from, to, now);
      RemoveExpiredOverlapCount(prefix, roomId, hotelId, from, to, now);
      if Reclaimable(last, roomId, hotelId, from, to, now) {
        assert RemoveExpired(bs, roomId, hotelId, from, to, now) == kept;
      } else {
        assert RemoveExpired(bs, roomId, hotelId, from, to, now) == kept + [last];
        OverlapCountAppend(kept, last, roomId, hotelId, from, to);
      }
    }
  }

  /** Every booking occupying an instant of [from, to) overlaps [from, to). */
  lemma {:induction false} CoverCountWithinOverlap(bs: seq<Booking>, roomId: int, hotelId: int, from: Time, to: Time, t: Time)
    requires from <= t < to
    ensures CoverCount(bs, roomId, hotelId, t) <= OverlapCount(bs, roomId, hotelId, from, to)
  {
    if bs != [] {
      CoverCountWithinOverlap(bs[..|bs| - 1], roomId, hotelId, from, to, t);
    }
  }

  /** Deleting rows never raises the occupation of any room at any instant. */
  lemma {:induction false} CoverCountRemoveExpired(bs: seq<Booking>, roomId: int, hotelId: int, from: Time, to: Time, now: Time,
                                                   roomId': int, hotelId': int, t: Time)
    ensures CoverCount(RemoveExpired(bs, roomId, hotelId, from, to, now), roomId', hotelId', t)
            <= CoverCount(bs, roomId', hotelId', t)
  {
    if bs != [] {
      var prefix, last := bs[..|bs| - 1], bs[|bs| - 1];
      var kept := RemoveExpired(prefix, roomId, hotelId, from, to, now);
      CoverCountRemoveExpired(prefix, roomId, hotelId, from, to, now, roomId', hotelId', t);
      if Reclaimable(last, roomId, hotelId, from, to, now) {
        assert RemoveExpired(bs, roomId, hotelId, from, to, now) == kept;
      } else {
        assert RemoveExpired(bs, roomId, hotelId, from, to, now) == kept + [last];
        CoverCountAppend(kept, last, roomId', hotelId', t);
      }
    }
  }

  /** The bookings of one room under one hotel key are among the room's bookings. */
  lemma {:induction false} CoverCountWithinRoomCover(bs: seq<Booking>, roomId: int, hotelId: int, t: Time)
    ensures CoverCount(bs, roomId, hotelId, t) <= RoomCoverCount(bs, roomId, t)
  {
    if bs != [] {
      CoverCountWithinRoomCover(bs[..|bs| - 1], roomId, hotelId, t);
    }
  }

  /** When every booking of a room carries one hotel key, counting per room and per pair agree. */
  lemma {:induction false} RoomCoverIsCover(bs: seq<Booking>, roomId: int, hotelId: int, t: Time)
    requires forall b :: b in bs && b.roomId == roomId ==> b.hotelId == hotelId
    ensures RoomCoverCount(bs, roomId, t) == CoverCount(bs, roomId, hotelId, t)
  {
    if bs != [] {
      assert bs[|bs| - 1] in bs;
      forall b | b in bs[..|bs| - 1] && b.roomId == roomId
        ensures b.hotelId == hotelId
      {
        assert b in bs;
      }
      RoomCoverIsCover(bs[..|bs| - 1], roomId, hotelId, t);
    }
  }

  /** Per-room capacity implies the per-pair invariant. */
  lemma RoomCapacityBoundsPairs(cat: Catalog, bs: seq<Booking>)
    requires RoomWithinCapacity(cat, bs)
    ensures WithinCapacity(cat, bs)
  {
    forall r, hotelId, t | r in cat.rooms
      ensures CoverCount(bs, r.roomDbId, hotelId, t) <= r.amount
    {
      CoverCountWithinRoomCover(bs, r.roomDbId, hotelId, t);
    }
  }

  /** The per-pair invariant gives per-room capacity once every room's bookings carry the recorded key. */
  lemma RoomCapacityFromRecordedKeys(cat: Catalog, bs: seq<Booking>)
    requires WithinCapacity(cat, bs)
    requires KeysAsRecorded(cat, bs)
    ensures RoomWithinCapacity(cat, bs)
  {
    forall r, t | r in cat.rooms
      ensures RoomCoverCount(bs, r.roomDbId, t) <= r.amount
    {
      var key := if RecordedHotelKey(cat, r).Some? then RecordedHotelKey(cat, r).value else r.hotelId;
      RoomCoverIsCover(bs, r.roomDbId, key, t);
    }
  }

  /** The per-pair invariant gives per-room capacity once every room's bookings carry its own key. */
  lemma RoomCapacityFromOwnKeys(cat: Catalog, bs: seq<Booking>)
    requires WithinCapacity(cat, bs)
    requires KeysOwn(cat, bs)
    ensures RoomWithinCapacity(cat, bs)
  {
    forall r, t | r in cat.rooms
      ensures RoomCoverCount(bs, r.roomDbId, t) <= r.amount
    {
      RoomCoverIsCover(bs, r.roomDbId, r.hotelId, t);
    }
  }
}
