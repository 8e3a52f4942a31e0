/**
 * What one hotel-saga step does, as a function of the tables, the incoming
 * message and the environment (the clock and the random draw). Each handler
 * is one atomic step; HotelHandler (handler.dfy) performs the same steps in
 * place and is proved to agree with these functions.
 */
module Saga {
  import opened Wrappers
  import opened Models
  import opened Messages
  import opened Storage

  /** The mutable part of the database: the Bookings table and its next identity value. */
  datatype Store = Store(bookings: seq<Booking>, nextBookingId: int)

  /** What one handler leaves behind: the new store and the message it publishes, if any. */
  datatype Outcome = Outcome(store: Store, reply: Option<Message>)

  /** The clock reading and the random seed one handler invocation sees. */
  datatype Ambient = Ambient(now: Time, seed: int)

  /** The three handlers of the dispatch switch. */
  datatype HandlerKind = TempBookHandler | BookHandler | TempRollbackHandler

  /** The `message.State switch` of HotelHandler.cs:75-81. */
  function Dispatch(s: SagaState): Option<HandlerKind>
  {
    match s
    case Begin => Some(TempBookHandler)
    case PaymentAccept => Some(BookHandler)
    case HotelTimedRollback => Some(TempRollbackHandler)
    case _ => None
  }

  /** `Random.Next(minValue, maxValue)`, with the generator's state as `seed`. */
  function RandomNext(minValue: int, maxValue: int, seed: int): (r: int)
    requires minValue < maxValue
    ensures minValue <= r < maxValue
  {
    minValue + seed % (maxValue - minValue)
  }

  /** The `rnd.Next(0, 1) switch` of the two payment stubs. */
  function PaymentResult(draw: int): SagaState
  {
    if draw == 1 then PaymentAccept else PaymentFailed
  }

  /** The row `new Booking { ... }` of HotelHandler.cs:124-133 and 166-175, given the next identity value. */
  function NewHold(id: int, hotel: HotelDb, room: RoomDb, transactionId: Guid, now: Time, from: Time, to: Time): Booking
  {
    NEW_BOOKING.(bookingId := id, hotelId := hotel.hotelDbId, roomId := room.roomDbId,
                 transactionId := transactionId, temporary := 1, temporaryDt := now,
                 bookFrom := from, bookTo := to)
  }

  /** The three ways the capacity check of HotelHandler.cs:122 and 150 can end. */
  datatype Admission = Hold | Reject | ReclaimAndHold

  function Admit(count: nat, expired: nat, amount: int): Admission
  {
    if count < amount then Hold
    else if count - expired >= amount then Reject
    else ReclaimAndHold
  }

  /** A hotel-request message with a body of the right kind: the cast at HotelHandler.cs:88 succeeds. */
  predicate IsHotelRequest(m: Message)
  {
    m.messageType == HotelRequest && m.body.Some? && m.body.value.HotelRequestBody?
  }

  /** The accept reply of HotelHandler.cs:136-140 and 178-182: next hop, PaymentRequest, HotelTimedAccept, dated now. */
  function AcceptReply(m: Message, now: Time): Message
  {
    NextHop(m, PaymentRequest, HotelTimedAccept, PaymentRequestBody).(creationDate := now)
  }

  /**
   * The capacity check and its outcome once the room and the hotel are
   * known (HotelHandler.cs:113-187): count, then hold, refuse, or reclaim
   * expired holds and hold.
   */
  function Reserve(st: Store, m: Message, now: Time, r: RoomDb, h: HotelDb): Outcome
    requires IsHotelRequest(m)
  {
    var req := m.body.value;
    var count := OverlapCount(st.bookings, r.roomDbId, h.hotelDbId, req.bookFrom, req.bookTo);
    var expired := ExpiredCount(st.bookings, r.roomDbId, h.hotelDbId, req.bookFrom, req.bookTo, now);
    var hold := NewHold(st.nextBookingId, h, r, m.transactionId, now, req.bookFrom, req.bookTo);
    match Admit(count, expired, r.amount)
    case Hold =>
      Outcome(Store(st.bookings + [hold], st.nextBookingId + 1), Some(AcceptReply(m, now)))
    case Reject =>
      Outcome(st, Some(AcceptReply(m, now).(state := HotelTimedFail)))
    case ReclaimAndHold =>
      var kept := RemoveExpired(st.bookings, r.roomDbId, h.hotelDbId, req.bookFrom, req.bookTo, now);
      Outcome(Store(kept + [hold], st.nextBookingId + 1), Some(AcceptReply(m, now)))
  }

  /** TempBookHotel (HotelHandler.cs:85-187), as written: the room and the hotel are looked up separately. */
  function TempBook(cat: Catalog, st: Store, m: Message, now: Time): Outcome
  {
    if m.messageType != HotelRequest || m.body.None? then Outcome(st, None)
    else if !m.body.value.HotelRequestBody? then Outcome(st, None)  // InvalidCastException: nothing is published
    else
      var req := m.body.value;
      var room := FindRoom(cat, req.roomType, req.hotelName);
      var hotel := FindHotel(cat, req.hotelName);
      if room.None? || hotel.None? then
        Outcome(st, Some(NextHop(m, PaymentRequest, HotelTimedFail, PaymentRequestBody)))
      else
        Reserve(st, m, now, room.value, hotel.value)
  }

  /**
   * TempBookHotel as evidently intended: the hold is checked and recorded
   * under the found room's own hotel rather than under the first hotel that
   * bears the requested name.
   */
  function TempBookOwnHotel(cat: Catalog, st: Store, m: Message, now: Time): Outcome
  {
    if !IsHotelRequest(m) then Outcome(st, None)
    else
      var req := m.body.value;
      var room := FindRoom(cat, req.roomType, req.hotelName);
      if room.None? then
        Outcome(st, Some(NextHop(m, PaymentRequest, HotelTimedFail, PaymentRequestBody)))
      else
        Reserve(st, m, now, room.value, HotelOf(cat, room.value).value)
  }

  /** The reply both payment stubs publish. */
  function PaymentStubReply(m: Message, env: Ambient): Message
  {
    NextHop(m, PaymentReply, PaymentResult(RandomNext(0, 1, env.seed)), PaymentReplyBody).(creationDate := env.now)
  }

  /** TempRollback (HotelHandler.cs:189-211): type check, cast, then the stubbed reply; no booking is touched. */
  function TempRollback(st: Store, m: Message, env: Ambient): Outcome
  {
    if IsHotelRequest(m) then Outcome(st, Some(PaymentStubReply(m, env))) else Outcome(st, None)
  }

  /** BookHotel (HotelHandler.cs:213-232): the stubbed reply, whatever the message carries. */
  function BookHotel(st: Store, m: Message, env: Ambient): Outcome
  {
    Outcome(st, Some(PaymentStubReply(m, env)))
  }

  /** One turn of the HandleHotels loop. */
  function Step(cat: Catalog, st: Store, m: Message, env: Ambient): Outcome
  {
    match Dispatch(m.state)
    case None => Outcome(st, None)
    case Some(TempBookHandler) => TempBook(cat, st, m, env.now)
    case Some(BookHandler) => BookHotel(st, m, env)
    case Some(TempRollbackHandler) => TempRollback(st, m, env)
  }

  /** The store and the published messages after a sequence of requests. */
  datatype Trace = Trace(store: Store, published: seq<Message>)

  function Run(cat: Catalog, st: Store, ms: seq<Message>, envs: seq<Ambient>): Trace
    requires |ms| == |envs|
  {
    if ms == [] then Trace(st, [])
    else
      var before := Run(cat, st, ms[..|ms| - 1], envs[..|envs| - 1]);
      var o := Step(cat, before.store, ms[|ms| - 1], envs[|envs| - 1]);
      Trace(o.store, before.published + ToSeq(o.reply))
  }

  // ---------------------------------------------------------------------
  // Dispatch

  /** Begin, PaymentAccept and HotelTimedRollback have handlers; every other state is ignored. */
  lemma DispatchTable(s: SagaState)
    ensures Dispatch(s) == Some(TempBookHandler) <==> s == Begin
    ensures Dispatch(s) == Some(BookHandler) <==> s == PaymentAccept
    ensures Dispatch(s) == Some(TempRollbackHandler) <==> s == HotelTimedRollback
  {
  }

  /** A message in any other state leaves the tables alone and publishes nothing. */
  lemma StepIgnoresOtherStates(cat: Catalog, st: Store, m: Message, env: Ambient)
    requires m.state !in {Begin, PaymentAccept, HotelTimedRollback}
    ensures Step(cat, st, m, env) == Outcome(st, None)
  {
  }

  // ---------------------------------------------------------------------
  // TempBookHotel

  /** A message that is not a hotel request with a hotel-request body gets no reply and changes nothing. */
  lemma TempBookIgnoresNonRequests(cat: Catalog, st: Store, m: Message, now: Time)
    requires !IsHotelRequest(m)
    ensures TempBook(cat, st, m, now) == Outcome(st, None)
  {
  }

  /** Unknown room type or hotel: the tables are unchanged and a HotelTimedFail request is published, its date not refreshed. */
  lemma TempBookUnknown(cat: Catalog, st: Store, m: Message, now: Time)
    requires IsHotelRequest(m)
    requires FindRoom(cat, m.body.value.roomType, m.body.value.hotelName).None?
             || FindHotel(cat, m.body.value.hotelName).None?
    ensures TempBook(cat, st, m, now).store == st
    ensures TempBook(cat, st, m, now).reply
            == Some(m.(messageId := m.messageId + 1, messageType := PaymentRequest,
                       state := HotelTimedFail, body := Some(PaymentRequestBody)))
  {
  }

  /** The request once its room and hotel are both found. */
  predicate Resolved(cat: Catalog, m: Message, room: RoomDb, hotel: HotelDb)
  {
    IsHotelRequest(m)
    && FindRoom(cat, m.body.value.roomType, m.body.value.hotelName) == Some(room)
    && FindHotel(cat, m.body.value.hotelName) == Some(hotel)
  }

  function RequestedOverlaps(st: Store, m: Message, room: RoomDb, hotel: HotelDb): nat
    requires IsHotelRequest(m)
  {
    OverlapCount(st.bookings, room.roomDbId, hotel.hotelDbId, m.body.value.bookFrom, m.body.value.bookTo)
  }

  function RequestedExpired(st: Store, m: Message, room: RoomDb, hotel: HotelDb, now: Time): nat
    requires IsHotelRequest(m)
  {
    ExpiredCount(st.bookings, room.roomDbId, hotel.hotelDbId, m.body.value.bookFrom, m.body.value.bookTo, now)
  }

  /** The hold a successful request inserts. */
  function RequestedHold(st: Store, m: Message, room: RoomDb, hotel: HotelDb, now: Time): (b: Booking)
    requires IsHotelRequest(m)
    ensures b.temporary == 1 && b.temporaryDt == now && b.transactionId == m.transactionId
    ensures b.roomId == room.roomDbId && b.hotelId == hotel.hotelDbId
    ensures b.bookFrom == m.body.value.bookFrom && b.bookTo == m.body.value.bookTo
    ensures b.bookingId == st.nextBookingId
  {
    NewHold(st.nextBookingId, hotel, room, m.transactionId, now, m.body.value.bookFrom, m.body.value.bookTo)
  }

  /** Fewer overlapping bookings than rooms: exactly one hold is appended and the request is accepted. */
  lemma TempBookFreeCapacity(cat: Catalog, st: Store, m: Message, now: Time, room: RoomDb, hotel: HotelDb)
    requires Resolved(cat, m, room, hotel)
    requires RequestedOverlaps(st, m, room, hotel) < room.amount
    ensures TempBook(cat, st, m, now).store
            == Store(st.bookings + [RequestedHold(st, m, room, hotel, now)], st.nextBookingId + 1)
    ensures TempBook(cat, st, m, now).reply == Some(AcceptReply(m, now))
  {
  }

  /** Full even after discounting expired holds: nothing is added or deleted and HotelTimedFail is published. */
  lemma TempBookNoCapacity(cat: Catalog, st: Store, m: Message, now: Time, room: RoomDb, hotel: HotelDb)
    requires Resolved(cat, m, room, hotel)
    requires RequestedOverlaps(st, m, room, hotel) >= room.amount
    requires RequestedOverlaps(st, m, room, hotel) - RequestedExpired(st, m, room, hotel, now) >= room.amount
    ensures TempBook(cat, st, m, now).store == st
    ensures TempBook(cat, st, m, now).reply
            == Some(AcceptReply(m, now).(state := HotelTimedFail))
  {
  }

  /** Full, but not counting expired holds there is room: exactly those holds go, one hold is added, and the request is accepted. */
  lemma TempBookReclaim(cat: Catalog, st: Store, m: Message, now: Time, room: RoomDb, hotel: HotelDb)
    requires Resolved(cat, m, room, hotel)
    requires RequestedOverlaps(st, m, room, hotel) >= room.amount
    requires RequestedOverlaps(st, m, room, hotel) - RequestedExpired(st, m, room, hotel, now) < room.amount
    ensures var after := TempBook(cat, st, m, now).store.bookings;
            && |after| == |st.bookings| - RequestedExpired(st, m, room, hotel, now) + 1
            && after[|after| - 1] == RequestedHold(st, m, room, hotel, now)
            && forall b :: b in after[..|after| - 1] <==>
                 b in st.bookings
                 && !Reclaimable(b, room.roomDbId, hotel.hotelDbId, m.body.value.bookFrom, m.body.value.bookTo, now)
    ensures TempBook(cat, st, m, now).store.nextBookingId == st.nextBookingId + 1
    ensures TempBook(cat, st, m, now).reply == Some(AcceptReply(m, now))
  {
    var req := m.body.value;
    var kept := RemoveExpired(st.bookings, room.roomDbId, hotel.hotelDbId, req.bookFrom, req.bookTo, now);
    var after := TempBook(cat, st, m, now).store.bookings;
    assert after == kept + [RequestedHold(st, m, room, hotel, now)];
    assert after[..|after| - 1] == kept;
  }

  /**
   * The capacity bound: whenever TempBook accepts, the bookings of the room
   * and hotel that overlap the requested range number at most the room's amount.
   */
  lemma TempBookCapacityBound(cat: Catalog, st: Store, m: Message, now: Time, room: RoomDb, hotel: HotelDb)
    requires Resolved(cat, m, room, hotel)
    requires TempBook(cat, st, m, now).reply.Some?
    requires TempBook(cat, st, m, now).reply.value.state == HotelTimedAccept
    ensures OverlapCount(TempBook(cat, st, m, now).store.bookings, room.roomDbId, hotel.hotelDbId,
                         m.body.value.bookFrom, m.body.value.bookTo) <= room.amount
  {
    var req := m.body.value;
    var hold := RequestedHold(st, m, room, hotel, now);
    var count := RequestedOverlaps(st, m, room, hotel);
    var expired := RequestedExpired(st, m, room, hotel, now);
    var after := TempBook(cat, st, m, now).store.bookings;
    if count < room.amount {
      TempBookFreeCapacity(cat, st, m, now, room, hotel);
      OverlapCountAppend(st.bookings, hold, room.roomDbId, hotel.hotelDbId, req.bookFrom, req.bookTo);
    } else if count - expired >= room.amount {
      TempBookNoCapacity(cat, st, m, now, room, hotel);
      assert false;
    } else {
      var kept := RemoveExpired(st.bookings, room.roomDbId, hotel.hotelDbId, req.bookFrom, req.bookTo, now);
      assert after == kept + [hold];
      RemoveExpiredOverlapCount(st.bookings, room.roomDbId, hotel.hotelDbId, req.bookFrom, req.bookTo, now);
      OverlapCountAppend(kept, hold, room.roomDbId, hotel.hotelDbId, req.bookFrom, req.bookTo);
    }
  }

  /** At any instant, appending a hold the guard admitted keeps the room within its amount. */
  lemma AdmittedHoldFits(cat: Catalog, kept: seq<Booking>, hold: Booking, room: RoomDb, free: int, r: RoomDb, hotelId: int, t: Time)
    requires UniqueRoomIds(cat) && room in cat.rooms && r in cat.rooms
    requires CoverCount(kept, r.roomDbId, hotelId, t) <= r.amount
    requires hold.roomId == room.roomDbId && (hold.bookFrom <= t < hold.bookTo ==> free < room.amount)
    requires hold.roomId == r.roomDbId && hold.hotelId == hotelId && hold.bookFrom <= t < hold.bookTo
             ==> CoverCount(kept, r.roomDbId, hotelId, t) <= free
    ensures CoverCount(kept + [hold], r.roomDbId, hotelId, t) <= r.amount
  {
    CoverCountAppend(kept, hold, r.roomDbId, hotelId, t);
  }

  /** The capacity check never lets a (room, hotel key) pair overfill, whichever catalog room and hotel it is given. */
  lemma ReservePreservesCapacity(cat: Catalog, st: Store, m: Message, now: Time, rm: RoomDb, h: HotelDb)
    requires IsHotelRequest(m)
    requires UniqueRoomIds(cat) && rm in cat.rooms
    requires WithinCapacity(cat, st.bookings)
    ensures WithinCapacity(cat, Reserve(st, m, now, rm, h).store.bookings)
  {
    var req := m.body.value;
    var from, to := req.bookFrom, req.bookTo;
    var count := OverlapCount(st.bookings, rm.roomDbId, h.hotelDbId, from, to);
    var expired := ExpiredCount(st.bookings, rm.roomDbId, h.hotelDbId, from, to, now);
    var hold := RequestedHold(st, m, rm, h, now);
    var after := Reserve(st, m, now, rm, h).store.bookings;
    match Admit(count, expired, rm.amount)
    case Reject =>
    case Hold =>
      assert after == st.bookings + [hold];
      forall r, hotelId, t | r in cat.rooms
        ensures CoverCount(after, r.roomDbId, hotelId, t) <= r.amount
      {
        if from <= t < to {
          CoverCountWithinOverlap(st.bookings, rm.roomDbId, h.hotelDbId, from, to, t);
        }
        AdmittedHoldFits(cat, st.bookings, hold, rm, count, r, hotelId, t);
      }
    case ReclaimAndHold =>
      var kept := RemoveExpired(st.bookings, rm.roomDbId, h.hotelDbId, from, to, now);
      assert after == kept + [hold];
      RemoveExpiredOverlapCount(st.bookings, rm.roomDbId, h.hotelDbId, from, to, now);
      forall r, hotelId, t | r in cat.rooms
        ensures CoverCount(after, r.roomDbId, hotelId, t) <= r.amount
      {
        CoverCountRemoveExpired(st.bookings, rm.roomDbId, h.hotelDbId, from, to, now, r.roomDbId, hotelId, t);
        if from <= t < to {
          CoverCountWithinOverlap(kept, rm.roomDbId, h.hotelDbId, from, to, t);
        }
        AdmittedHoldFits(cat, kept, hold, rm, count - expired, r, hotelId, t);
      }
  }

  /**
   * The rows the capacity check leaves behind: every row it keeps was there
   * before, and the one row it may add is the hold for `rm` under `h`'s key.
   */
  lemma ReserveRows(st: Store, m: Message, now: Time, rm: RoomDb, h: HotelDb)
    requires IsHotelRequest(m)
    ensures forall b :: b in Reserve(st, m, now, rm, h).store.bookings ==>
              b in st.bookings || (b.roomId == rm.roomDbId && b.hotelId == h.hotelDbId)
  {
    var req := m.body.value;
    var kept := RemoveExpired(st.bookings, rm.roomDbId, h.hotelDbId, req.bookFrom, req.bookTo, now);
    var hold := RequestedHold(st, m, rm, h, now);
    var after := Reserve(st, m, now, rm, h).store.bookings;
    assert after == st.bookings || after == st.bookings + [hold] || after == kept + [hold];
  }

  /** TempBook never overfills a (room key, hotel key) pair at any instant: the per-pair invariant is preserved. */
  lemma TempBookPreservesCapacity(cat: Catalog, st: Store, m: Message, now: Time)
    requires UniqueRoomIds(cat)
    requires WithinCapacity(cat, st.bookings)
    ensures WithinCapacity(cat, TempBook(cat, st, m, now).store.bookings)
  {
    if IsHotelRequest(m) {
      var req := m.body.value;
      var room := FindRoom(cat, req.roomType, req.hotelName);
      var hotel := FindHotel(cat, req.hotelName);
      if room.Some? && hotel.Some? {
        ReservePreservesCapacity(cat, st, m, now, room.value, hotel.value);
      }
    }
  }

  /** Every booking TempBook records for a room carries the key it records for that room. */
  lemma TempBookKeepsKeysAsRecorded(cat: Catalog, st: Store, m: Message, now: Time)
    requires UniqueRoomIds(cat)
    requires KeysAsRecorded(cat, st.bookings)
    ensures KeysAsRecorded(cat, TempBook(cat, st, m, now).store.bookings)
  {
    if IsHotelRequest(m) {
      var req := m.body.value;
      var room := FindRoom(cat, req.roomType, req.hotelName);
      var hotel := FindHotel(cat, req.hotelName);
      if room.Some? && hotel.Some? {
        var rm, h := room.value, hotel.value;
        ReserveRows(st, m, now, rm, h);
        assert FindHotel(cat, HotelOf(cat, rm).value.name) == Some(h);
        assert RecordedHotelKey(cat, rm) == Some(h.hotelDbId);
      }
    }
  }

  /**
   * Per-room capacity: if no room was occupied beyond its amount and every
   * booking carried the key TempBook records, both still hold after a step.
   */
  lemma TempBookPreservesRoomCapacity(cat: Catalog, st: Store, m: Message, now: Time)
    requires UniqueRoomIds(cat)
    requires RoomWithinCapacity(cat, st.bookings) && KeysAsRecorded(cat, st.bookings)
    ensures var after := TempBook(cat, st, m, now).store.bookings;
            RoomWithinCapacity(cat, after) && KeysAsRecorded(cat, after)
  {
    RoomCapacityBoundsPairs(cat, st.bookings);
    TempBookPreservesCapacity(cat, st, m, now);
    TempBookKeepsKeysAsRecorded(cat, st, m, now);
    RoomCapacityFromRecordedKeys(cat, TempBook(cat, st, m, now).store.bookings);
  }

  // ---------------------------------------------------------------------
  // Two hotels of one name

  /**
   * As written, with two hotels named "X", the room of the second is counted
   * and booked under the first's key: a table whose every booking carries its
   * room's own key and that fills room 7 ends with room 7 occupied twice.
   */
  lemma DuplicateHotelNameOverbooks()
    ensures var h1 := NEW_HOTEL_DB.(hotelDbId := 1, name := "X");
            var h2 := NEW_HOTEL_DB.(hotelDbId := 2, name := "X");
            var room := NEW_ROOM_DB.(roomDbId := 7, amount := 1, name := "Deluxe", hotelId := 2);
            var cat := Catalog([h1, h2], [room]);
            var booking := NEW_BOOKING.(hotelId := 2, roomId := 7, temporary := 0, bookFrom := 0, bookTo := 10);
            var m := Message(0, 0, HotelRequest, Begin, Some(HotelRequestBody("X", "Deluxe", 0, 10)), 0);
            var o := TempBook(cat, Store([booking], 1), m, 0);
            && UniqueRoomIds(cat) && KeysOwn(cat, [booking]) && RoomWithinCapacity(cat, [booking])
            && o.reply.Some? && o.reply.value.state == HotelTimedAccept
            && RoomCoverCount(o.store.bookings, 7, 5) == 2 > room.amount
            && o.store.bookings[1].hotelId == 1 != room.hotelId
  {
    var h1 := NEW_HOTEL_DB.(hotelDbId := 1, name := "X");
    var h2 := NEW_HOTEL_DB.(hotelDbId := 2, name := "X");
    var room := NEW_ROOM_DB.(roomDbId := 7, amount := 1, name := "Deluxe", hotelId := 2);
    var cat := Catalog([h1, h2], [room]);
    var booking := NEW_BOOKING.(hotelId := 2, roomId := 7, temporary := 0, bookFrom := 0, bookTo := 10);
    var m := Message(0, 0, HotelRequest, Begin, Some(HotelRequestBody("X", "Deluxe", 0, 10)), 0);
    assert HotelOf(cat, room) == Some(h2);
    assert FindRoom(cat, "Deluxe", "X") == Some(room);
    assert FindHotel(cat, "X") == Some(h1);
    assert [booking][..0] == [];
    assert OverlapCount([booking], 7, 1, 0, 10) == 0;
    var after := TempBook(cat, Store([booking], 1), m, 0).store.bookings;
    assert after == [booking, NewHold(1, h1, room, 0, 0, 0, 10)];
    assert after[..1] == [booking] && after[..1][..0] == [];
    forall r, t | r in cat.rooms
      ensures RoomCoverCount([booking], r.roomDbId, t) <= r.amount
    {
    }
  }

  /**
   * The same request admitted twice from an empty table, once under each of
   * two hotels named "X": if the unordered look-up of HotelHandler.cs:97-98
   * returns a different row on each request, room 7 ends up occupied twice.
   */
  lemma VaryingPickOverbooks()
    ensures var h1 := NEW_HOTEL_DB.(hotelDbId := 1, name := "X");
            var h2 := NEW_HOTEL_DB.(hotelDbId := 2, name := "X");
            var room := NEW_ROOM_DB.(roomDbId := 7, amount := 1, name := "Deluxe", hotelId := 2);
            var m := Message(0, 0, HotelRequest, Begin, Some(HotelRequestBody("X", "Deluxe", 0, 10)), 0);
            var first := Reserve(Store([], 0), m, 0, room, h1);
            var second := Reserve(first.store, m, 0, room, h2);
            && first.reply == Some(AcceptReply(m, 0)) && second.reply == Some(AcceptReply(m, 0))
            && RoomCoverCount(second.store.bookings, 7, 5) == 2 > room.amount
  {
    var h1 := NEW_HOTEL_DB.(hotelDbId := 1, name := "X");
    var h2 := NEW_HOTEL_DB.(hotelDbId := 2, name := "X");
    var room := NEW_ROOM_DB.(roomDbId := 7, amount := 1, name := "Deluxe", hotelId := 2);
    var m := Message(0, 0, HotelRequest, Begin, Some(HotelRequestBody("X", "Deluxe", 0, 10)), 0);
    var first := Reserve(Store([], 0), m, 0, room, h1);
    var hold := NewHold(0, h1, room, m.transactionId, 0, 0, 10);
    assert first.store.bookings == [hold];
    assert [hold][..0] == [];
    assert OverlapCount([hold], 7, 2, 0, 10) == 0;
    var second := Reserve(first.store, m, 0, room, h2);
    var hold2 := NewHold(1, h2, room, m.transactionId, 0, 0, 10);
    assert second.store.bookings == [hold, hold2];
    assert [hold, hold2][..1] == [hold];
    assert RoomCoverCount([hold], 7, 5) == 1;
  }

  /** The corrected step refuses that same request: room 7 is already full under its own key. */
  lemma OwnHotelRefusesDuplicateName()
    ensures var h1 := NEW_HOTEL_DB.(hotelDbId := 1, name := "X");
            var h2 := NEW_HOTEL_DB.(hotelDbId := 2, name := "X");
            var room := NEW_ROOM_DB.(roomDbId := 7, amount := 1, name := "Deluxe", hotelId := 2);
            var cat := Catalog([h1, h2], [room]);
            var booking := NEW_BOOKING.(hotelId := 2, roomId := 7, temporary := 0, bookFrom := 0, bookTo := 10);
            var m := Message(0, 0, HotelRequest, Begin, Some(HotelRequestBody("X", "Deluxe", 0, 10)), 0);
            var o := TempBookOwnHotel(cat, Store([booking], 1), m, 0);
            o.store == Store([booking], 1) && o.reply.Some? && o.reply.value.state == HotelTimedFail
  {
    var h1 := NEW_HOTEL_DB.(hotelDbId := 1, name := "X");
    var h2 := NEW_HOTEL_DB.(hotelDbId := 2, name := "X");
    var room := NEW_ROOM_DB.(roomDbId := 7, amount := 1, name := "Deluxe", hotelId := 2);
    var cat := Catalog([h1, h2], [room]);
    var booking := NEW_BOOKING.(hotelId := 2, roomId := 7, temporary := 0, bookFrom := 0, bookTo := 10);
    assert HotelOf(cat, room) == Some(h2);
    assert FindRoom(cat, "Deluxe", "X") == Some(room);
    assert [booking][..0] == [];
    assert OverlapCount([booking], 7, 2, 0, 10) == 1;
    assert ExpiredCount([booking], 7, 2, 0, 10, 0) == 0;
  }

  /** The corrected step keeps per-room capacity on every table whose bookings carry their room's own key. */
  lemma TempBookOwnHotelPreservesRoomCapacity(cat: Catalog, st: Store, m: Message, now: Time)
    requires UniqueRoomIds(cat)
    requires RoomWithinCapacity(cat, st.bookings) && KeysOwn(cat, st.bookings)
    ensures var after := TempBookOwnHotel(cat, st, m, now).store.bookings;
            RoomWithinCapacity(cat, after) && KeysOwn(cat, after)
  {
    var after := TempBookOwnHotel(cat, st, m, now).store.bookings;
    RoomCapacityBoundsPairs(cat, st.bookings);
    if IsHotelRequest(m) {
      var req := m.body.value;
      var room := FindRoom(cat, req.roomType, req.hotelName);
      if room.Some? {
        var rm := room.value;
        var h := HotelOf(cat, rm).value;
        ReservePreservesCapacity(cat, st, m, now, rm, h);
        ReserveRows(st, m, now, rm, h);
      }
    }
    RoomCapacityFromOwnKeys(cat, after);
  }

  /** Where no two hotels share a name, the corrected step is the step as written. */
  lemma TempBookOwnHotelAgrees(cat: Catalog, st: Store, m: Message, now: Time)
    requires UniqueHotelNames(cat)
    ensures TempBookOwnHotel(cat, st, m, now) == TempBook(cat, st, m, now)
  {
    if IsHotelRequest(m) {
      var req := m.body.value;
      var room := FindRoom(cat, req.roomType, req.hotelName);
      if room.Some? {
        assert FindHotel(cat, req.hotelName) == HotelOf(cat, room.value);
      }
    }
  }

  // ---------------------------------------------------------------------
  // The payment stubs

  /** `Next(0, 1)` is always 0, so both stubs always answer PaymentFailed. */
  lemma StubAlwaysFails(m: Message, env: Ambient)
    ensures PaymentStubReply(m, env).state == PaymentFailed
  {
  }

  /** BookHotel leaves the tables alone and publishes the next hop as a failed PaymentReply dated now. */
  lemma BookHotelReply(st: Store, m: Message, env: Ambient)
    ensures BookHotel(st, m, env).store == st
    ensures BookHotel(st, m, env).reply
            == Some(m.(messageId := m.messageId + 1, messageType := PaymentReply, state := PaymentFailed,
                       body := Some(PaymentReplyBody), creationDate := env.now))
  {
  }

  /** TempRollback leaves the tables alone; it answers like BookHotel for a hotel request and not at all otherwise. */
  lemma TempRollbackReply(st: Store, m: Message, env: Ambient)
    ensures TempRollback(st, m, env).store == st
    ensures TempRollback(st, m, env).reply
            == if IsHotelRequest(m) then BookHotel(st, m, env).reply else None
  {
  }

  // ---------------------------------------------------------------------
  // Whole runs

  /** Every reply is the next hop of the same saga: message id plus one, transaction id kept. */
  lemma StepReplyIsNextHop(cat: Catalog, st: Store, m: Message, env: Ambient)
    requires Step(cat, st, m, env).reply.Some?
    ensures Step(cat, st, m, env).reply.value.messageId == m.messageId + 1
    ensures Step(cat, st, m, env).reply.value.transactionId == m.transactionId
  {
  }

  /** Only TempBook changes the tables. */
  lemma StepStore(cat: Catalog, st: Store, m: Message, env: Ambient)
    ensures Step(cat, st, m, env).store
            == if m.state == Begin then TempBook(cat, st, m, env.now).store else st
  {
  }

  /** The capacity invariant holds after any sequence of saga messages if it held before. */
  lemma {:induction false} RunPreservesCapacity(cat: Catalog, st: Store, ms: seq<Message>, envs: seq<Ambient>)
    requires |ms| == |envs|
    requires UniqueRoomIds(cat)
    requires WithinCapacity(cat, st.bookings)
    ensures WithinCapacity(cat, Run(cat, st, ms, envs).store.bookings)
  {
    if ms != [] {
      var before := Run(cat, st, ms[..|ms| - 1], envs[..|envs| - 1]);
      RunPreservesCapacity(cat, st, ms[..|ms| - 1], envs[..|envs| - 1]);
      var m, env := ms[|ms| - 1], envs[|envs| - 1];
      StepStore(cat, before.store, m, env);
      TempBookPreservesCapacity(cat, before.store, m, env.now);
    }
  }

  /**
   * Per-room capacity over whole runs: it holds after any sequence of
   * requests that starts from a table within capacity whose bookings carry
   * the recorded keys, for instance an empty one.
   */
  lemma {:induction false} RunPreservesRoomCapacity(cat: Catalog, st: Store, ms: seq<Message>, envs: seq<Ambient>)
    requires |ms| == |envs|
    requires UniqueRoomIds(cat)
    requires RoomWithinCapacity(cat, st.bookings) && KeysAsRecorded(cat, st.bookings)
    ensures var after := Run(cat, st, ms, envs).store.bookings;
            RoomWithinCapacity(cat, after) && KeysAsRecorded(cat, after)
  {
    if ms != [] {
      var before := Run(cat, st, ms[..|ms| - 1], envs[..|envs| - 1]);
      RunPreservesRoomCapacity(cat, st, ms[..|ms| - 1], envs[..|envs| - 1]);
      var m, env := ms[|ms| - 1], envs[|envs| - 1];
      StepStore(cat, before.store, m, env);
      TempBookPreservesRoomCapacity(cat, before.store, m, env.now);
    }
  }

  /** From an empty Bookings table no room is ever overbooked, provided no room has a negative amount. */
  lemma RunFromEmptyTable(cat: Catalog, nextId: int, ms: seq<Message>, envs: seq<Ambient>)
    requires |ms| == |envs|
    requires UniqueRoomIds(cat)
    requires forall r :: r in cat.rooms ==> r.amount >= 0
    ensures RoomWithinCapacity(cat, Run(cat, Store([], nextId), ms, envs).store.bookings)
  {
    RunPreservesRoomCapacity(cat, Store([], nextId), ms, envs);
  }

  /** At most one reply per request. */
  lemma {:induction false} RunPublishesAtMostOnePerRequest(cat: Catalog, st: Store, ms: seq<Message>, envs: seq<Ambient>)
    requires |ms| == |envs|
    ensures |Run(cat, st, ms, envs).published| <= |ms|
  {
    if ms != [] {
      RunPublishesAtMostOnePerRequest(cat, st, ms[..|ms| - 1], envs[..|envs| - 1]);
    }
  }
}
