/**
 * The database entities of Models/HotelDbContext.cs. Navigation properties
 * (Booking.Hotel, Booking.Room, RoomDb.Hotel, HotelDb.Rooms) are held as the
 * keys they stand for: rows are identified by HotelDbId and RoomDbId.
 */
module Models {

  /** A DateTime, as its count of 100-nanosecond ticks. */
  type Time = int

  const TICKS_PER_SECOND: int := 10_000_000

  /** A Guid; only equality matters, and 0 plays Guid.Empty. */
  type Guid = nat

  /** A row of Hotels. Its room list is not a field: it is the rooms whose hotelId is its key. */
  datatype HotelDb = HotelDb(
    hotelDbId: int,
    name: string,
    country: string,
    city: string,
    airportCode: string,
    airportName: string)

  /** `new HotelDb()`: every string empty, key 0. */
  const NEW_HOTEL_DB: HotelDb := HotelDb(0, "", "", "", "", "")

  /**
   * A row of Rooms: one room type of one hotel, `amount` physical rooms of it.
   * `price` is the integer column the FullService migration adds.
   */
  datatype RoomDb = RoomDb(
    roomDbId: int,
    amount: int,
    name: string,
    minPeople: int,
    maxPeople: int,
    minAdults: int,
    maxAdults: int,
    minChildren: int,
    maxChildren: int,
    max10yo: int,
    maxLesserChildren: int,
    price: int,
    hotelId: int)

  /** `new RoomDb()`: every limit and the amount -1, the name empty, the price 0; no hotel (key 0). */
  const NEW_ROOM_DB: RoomDb := RoomDb(0, -1, "", -1, -1, -1, -1, -1, -1, -1, -1, 0, 0)

  /**
   * A row of Bookings. `temporary` is 1 for a hold, 0 for a confirmed booking
   * and -1 when unset; `temporaryDt` is when the hold was placed.
   */
  datatype Booking = Booking(
    bookingId: int,
    hotelId: int,
    roomId: int,
    transactionId: Guid,
    temporary: int,
    temporaryDt: Time,
    bookFrom: Time,
    bookTo: Time)

  /**
   * `new Booking()`: `temporary` -1, every DateTime DateTime.MinValue (tick 0),
   * and the Hotel and Room navigations fresh default entities, both with key 0.
   */
  const NEW_BOOKING: Booking := Booking(0, 0, 0, 0, -1, 0, 0, 0)
}
