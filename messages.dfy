/**
 * The saga message the handler receives and rewrites. Message is a value
 * type in the service (the codec yields a nullable Message), so each handler
 * works on its own copy and publishes that copy.
 */
module Messages {
  import opened Wrappers
  import opened Models

  /** Saga states this participant reads or writes; every other member of the enum is `OtherState`. */
  datatype SagaState =
    | Begin
    | PaymentAccept
    | PaymentFailed
    | HotelTimedRollback
    | HotelTimedAccept
    | HotelTimedFail
    | OtherState(ordinal: int)

  /** Message types this participant reads or writes; every other one is `OtherType`. */
  datatype MessageType =
    | HotelRequest
    | PaymentRequest
    | PaymentReply
    | OtherType(ordinal: int)

  /** The polymorphic message body. */
  datatype Body =
    | HotelRequestBody(hotelName: string, roomType: string, bookFrom: Time, bookTo: Time)
    | PaymentRequestBody
    | PaymentReplyBody
    | OtherBody

  /** `body` is None when the message carries a null body. */
  datatype Message = Message(
    messageId: int,
    transactionId: Guid,
    messageType: MessageType,
    state: SagaState,
    body: Option<Body>,
    creationDate: Time)

  /**
   * The next saga hop: the message id moves on by one, and the type, the
   * state and the body are replaced. The creation date is not touched.
   */
  function NextHop(m: Message, t: MessageType, s: SagaState, b: Body): (r: Message)
    ensures r.messageId == m.messageId + 1
    ensures r.transactionId == m.transactionId && r.creationDate == m.creationDate
    ensures r.messageType == t && r.state == s && r.body == Some(b)
  {
    m.(messageId := m.messageId + 1, messageType := t, state := s, body := Some(b))
  }
}
