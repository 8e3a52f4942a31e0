/**
 * HotelHandler (HotelService/HotelHandler.cs): the saga participant object.
 * It owns the Bookings table (through the write context) and the outbound
 * Publish channel; each handler rewrites its copy of the message field by
 * field, as the source does, and is proved to agree with the step functions
 * of module Saga.
 */
module Handler {
  import opened Wrappers
  import opened Models
  import opened Messages
  import opened Storage
  import opened Saga

  class HotelHandler {
    /** The Hotels and Rooms tables, which no handler writes. */
    const catalog: Catalog
    /** The Bookings table. */
    var bookings: seq<Booking>
    /** The identity value the table gives the next inserted row. */
    var nextBookingId: int
    /** Everything written to the Publish channel so far, oldest first. */
    var published: seq<Message>

    function Store(): Saga.Store
      reads this
    {
      Saga.Store(bookings, nextBookingId)
    }

    constructor (cat: Catalog, table: seq<Booking>, nextId: int)
      ensures catalog == cat && bookings == table && nextBookingId == nextId && published == []
    {
      catalog := cat;
      bookings := table;
      nextBookingId := nextId;
      published := [];
    }

    /** `Publish.Writer.WriteAsync(message)`. */
    method Publish(message: Message)
      modifies this`published
      ensures published == old(published) + [message]
    {
      published := published + [message];
    }

    /** `_writeDb.Bookings.Add(new Booking { ... })` followed by the commit. */
    method InsertHold(hotel: HotelDb, room: RoomDb, transactionId: Guid, now: Time, from: Time, to: Time)
      modifies this`bookings, this`nextBookingId
      ensures bookings == old(bookings) + [NewHold(old(nextBookingId), hotel, room, transactionId, now, from, to)]
      ensures nextBookingId == old(nextBookingId) + 1
    {
      var booking := NEW_BOOKING;
      booking := booking.(hotelId := hotel.hotelDbId, roomId := room.roomDbId, transactionId := transactionId);
      booking := booking.(temporary := 1, temporaryDt := now, bookFrom := from, bookTo := to);
      booking := booking.(bookingId := nextBookingId);
      bookings := bookings + [booking];
      nextBookingId := nextBookingId + 1;
    }

    /** TempBookHotel (HotelHandler.cs:85-187), with `now` for DateTime.Now. */
    method TempBookHotel(message: Message, now: Time)
      modifies this
      ensures Store() == TempBook(catalog, old(Store()), message, now).store
      ensures published == old(published) + ToSeq(TempBook(catalog, old(Store()), message, now).reply)
      ensures UniqueRoomIds(catalog) && old(RoomWithinCapacity(catalog, bookings) && KeysAsRecorded(catalog, bookings))
              ==> RoomWithinCapacity(catalog, bookings) && KeysAsRecorded(catalog, bookings)
    {
      ghost var before := Store();
      ghost var o := TempBook(catalog, before, message, now);
      if UniqueRoomIds(catalog) && RoomWithinCapacity(catalog, bookings) && KeysAsRecorded(catalog, bookings) {
        TempBookPreservesRoomCapacity(catalog, before, message, now);
      }
      if message.messageType != HotelRequest || message.body.None? {
        return;
      }
      if !message.body.value.HotelRequestBody? {
        return;  // the cast to HotelRequest throws; the handler faults before publishing
      }
      var requestBody := message.body.value;
      var msg := message;

      var room := FindRoom(catalog, requestBody.roomType, requestBody.hotelName);
      var hotel := FindHotel(catalog, requestBody.hotelName);
      if room.None? || hotel.None? {
        msg := msg.(messageId := msg.messageId + 1);
        msg := msg.(messageType := PaymentRequest);
        msg := msg.(state := HotelTimedFail);
        msg := msg.(body := Some(PaymentRequestBody));
        assert o.reply == Some(msg);
        Publish(msg);
        return;
      }

      var r, h := room.value, hotel.value;
      var count := OverlapCount(bookings, r.roomDbId, h.hotelDbId, requestBody.bookFrom, requestBody.bookTo);
      if count < r.amount {
        assert Admit(count, ExpiredCount(bookings, r.roomDbId, h.hotelDbId, requestBody.bookFrom, requestBody.bookTo, now), r.amount) == Hold;
        InsertHold(h, r, message.transactionId, now, requestBody.bookFrom, requestBody.bookTo);
        msg := msg.(messageId := msg.messageId + 1);
        msg := msg.(messageType := PaymentRequest);
        msg := msg.(state := HotelTimedAccept);
        msg := msg.(body := Some(PaymentRequestBody));
        msg := msg.(creationDate := now);
        assert o.reply == Some(msg);
        Publish(msg);
        return;
      }

      var expired := ExpiredCount(bookings, r.roomDbId, h.hotelDbId, requestBody.bookFrom, requestBody.bookTo, now);
      if count - expired >= r.amount {
        assert Admit(count, expired, r.amount) == Reject;
        msg := msg.(messageId := msg.messageId + 1);
        msg := msg.(messageType := PaymentRequest);
        msg := msg.(state := HotelTimedFail);
        msg := msg.(body := Some(PaymentRequestBody));
        msg := msg.(creationDate := now);
        assert o.reply == Some(msg);
        Publish(msg);
        return;
      }

      assert Admit(count, expired, r.amount) == ReclaimAndHold;
      bookings := RemoveExpired(bookings, r.roomDbId, h.hotelDbId, requestBody.bookFrom, requestBody.bookTo, now);
      InsertHold(h, r, message.transactionId, now, requestBody.bookFrom, requestBody.bookTo);
      msg := msg.(messageId := msg.messageId + 1);
      msg := msg.(messageType := PaymentRequest);
      msg := msg.(state := HotelTimedAccept);
      msg := msg.(body := Some(PaymentRequestBody));
      msg := msg.(creationDate := now);
      assert o.reply == Some(msg);
      Publish(msg);
    }

    /** TempRollback (HotelHandler.cs:189-211); the delay before it is not modelled. */
    method TempRollback(message: Message, env: Ambient)
      modifies this`published
      ensures published == old(published) + ToSeq(Saga.TempRollback(old(Store()), message, env).reply)
    {
      if message.messageType != HotelRequest || message.body.None? {
        return;
      }
      if !message.body.value.HotelRequestBody? {
        return;  // the cast to HotelRequest throws
      }
      var result := PaymentResult(RandomNext(0, 1, env.seed));
      var msg := message;
      msg := msg.(messageType := PaymentReply);
      msg := msg.(messageId := msg.messageId + 1);
      msg := msg.(state := result);
      msg := msg.(body := Some(PaymentReplyBody));
      msg := msg.(creationDate := env.now);
      Publish(msg);
    }

    /** BookHotel (HotelHandler.cs:213-232); the delay before it is not modelled. */
    method BookHotel(message: Message, env: Ambient)
      modifies this`published
      ensures published == old(published) + ToSeq(Saga.BookHotel(old(Store()), message, env).reply)
    {
      var result := PaymentResult(RandomNext(0, 1, env.seed));
      var msg := message;
      msg := msg.(messageType := PaymentReply);
      msg := msg.(messageId := msg.messageId + 1);
      msg := msg.(state := result);
      msg := msg.(body := Some(PaymentReplyBody));
      msg := msg.(creationDate := env.now);
      Publish(msg);
    }

    /**
     * The switch of HandleHotels (HotelHandler.cs:75-81): run the handler the
     * message's state selects; any other state is ignored.
     */
    method Handle(message: Message, env: Ambient)
      modifies this
      ensures Store() == Step(catalog, old(Store()), message, env).store
      ensures published == old(published) + ToSeq(Step(catalog, old(Store()), message, env).reply)
    {
      match Dispatch(message.state) {
        case Some(TempBookHandler) => TempBookHotel(message, env.now);
        case Some(BookHandler) => BookHotel(message, env);
        case Some(TempRollbackHandler) => TempRollback(message, env);
        case None =>
      }
    }

    /**
     * HandleHotels (HotelHandler.cs:67-83): read the requests in order and run
     * the handler each one's state selects, each as one atomic step.
     */
    method HandleHotels(requests: seq<Message>, envs: seq<Ambient>)
      requires |requests| == |envs|
      modifies this
      ensures Store() == Run(catalog, old(Store()), requests, envs).store
      ensures published == old(published) + Run(catalog, old(Store()), requests, envs).published
      ensures UniqueRoomIds(catalog) && old(RoomWithinCapacity(catalog, bookings) && KeysAsRecorded(catalog, bookings))
              ==> RoomWithinCapacity(catalog, bookings) && KeysAsRecorded(catalog, bookings)
    {
      ghost var start := Store();
      ghost var sent := published;
      var i := 0;
      while i < |requests|
        invariant 0 <= i <= |requests|
        invariant Store() == Run(catalog, start, requests[..i], envs[..i]).store
        invariant published == sent + Run(catalog, start, requests[..i], envs[..i]).published
      {
        assert requests[..i + 1][..i] == requests[..i];
        assert envs[..i + 1][..i] == envs[..i];
        Handle(requests[i], envs[i]);
        i := i + 1;
      }
      assert requests[..|requests|] == requests;
      assert envs[..|envs|] == envs;
      if UniqueRoomIds(catalog) && RoomWithinCapacity(catalog, start.bookings) && KeysAsRecorded(catalog, start.bookings) {
        RunPreservesRoomCapacity(catalog, start, requests, envs);
      }
    }
  }
}
