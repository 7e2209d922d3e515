/** The bounded wire messages of the pairing-request phase. */
module PairingWire {
  import opened Results
  import opened Bytes

  const PAIRING_PROTOCOL_VERSION: Byte := 1
  const ATTEMPT_ID_LEN: nat := 16
  const BASE_MESSAGE_LEN: nat := 18
  const REJECTED_MESSAGE_LEN: nat := 19
  const KIND_REQUEST: Byte := 1
  const KIND_REQUEST_ACCEPTED: Byte := 2
  const KIND_REQUEST_REJECTED: Byte := 3

  /** A correlation token in its fixed wire form; every value is allowed. */
  type AttemptId = id: seq<Byte> | |id| == 16 witness seq(16, i => 0)

  datatype Reason = Unspecified | Busy | Declined

  function ReasonToWire(reason: Reason): Byte {
    match reason
    case Unspecified => 0
    case Busy => 1
    case Declined => 2
  }

  function ReasonFromWire(value: Byte): Option<Reason> {
    if value == 0 then Some(Unspecified)
    else if value == 1 then Some(Busy)
    else if value == 2 then Some(Declined)
    else None
  }

  datatype Message =
    | Request(id: AttemptId)
    | RequestAccepted(id: AttemptId)
    | RequestRejected(id: AttemptId, reason: Reason)

  datatype MessageError =
    | InvalidLength(len: nat)
    | UnsupportedVersion(version: Byte)
    | UnknownMessageKind(kind: Byte)
    | UnknownRejectionReason(raw: Byte)
    | LengthKindMismatch(mismatched: Byte, len: nat)

  function Encode(message: Message): seq<Byte> {
    match message
    case Request(id) => [PAIRING_PROTOCOL_VERSION, KIND_REQUEST] + id
    case RequestAccepted(id) => [PAIRING_PROTOCOL_VERSION, KIND_REQUEST_ACCEPTED] + id
    case RequestRejected(id, reason) => [PAIRING_PROTOCOL_VERSION, KIND_REQUEST_REJECTED] + id + [ReasonToWire(reason)]
  }

  /** Length, version, kind, per-kind length and reason are checked in this order. */
  function Decode(bytes: seq<Byte>): Result<Message, MessageError> {
    if |bytes| < BASE_MESSAGE_LEN || |bytes| > REJECTED_MESSAGE_LEN then Err(InvalidLength(|bytes|))
    else if bytes[0] != PAIRING_PROTOCOL_VERSION then Err(UnsupportedVersion(bytes[0]))
    else
      var kind, id := bytes[1], bytes[2..2 + ATTEMPT_ID_LEN];
      if kind == KIND_REQUEST then
        if |bytes| == BASE_MESSAGE_LEN then Ok(Request(id)) else Err(LengthKindMismatch(kind, |bytes|))
      else if kind == KIND_REQUEST_ACCEPTED then
        if |bytes| == BASE_MESSAGE_LEN then Ok(RequestAccepted(id)) else Err(LengthKindMismatch(kind, |bytes|))
      else if kind == KIND_REQUEST_REJECTED then
        if |bytes| == REJECTED_MESSAGE_LEN then
          match ReasonFromWire(bytes[2 + ATTEMPT_ID_LEN])
          case Some(reason) => Ok(RequestRejected(id, reason))
          case None => Err(UnknownRejectionReason(bytes[2 + ATTEMPT_ID_LEN]))
        else Err(LengthKindMismatch(kind, |bytes|))
      else Err(UnknownMessageKind(kind))
  }

  /** Builds the message byte by byte. */
  method EncodeMessage(message: Message) returns (out: seq<Byte>)
    ensures out == Encode(message)
  {
    out := [PAIRING_PROTOCOL_VERSION];
    match message {
      case Request(id) =>
        out := out + [KIND_REQUEST];
        out := out + id;
      case RequestAccepted(id) =>
        out := out + [KIND_REQUEST_ACCEPTED];
        out := out + id;
      case RequestRejected(id, reason) =>
        out := out + [KIND_REQUEST_REJECTED];
        out := out + id;
        out := out + [ReasonToWire(reason)];
    }
  }

  /** The codec is a bijection between messages and the byte strings it accepts. */
  lemma DecodeExact(bytes: seq<Byte>, message: Message)
    ensures Decode(bytes) == Ok(message) <==> bytes == Encode(message)
  {
    var encoded := Encode(message);
    assert encoded[2..18] == message.id;
    if Decode(bytes) == Ok(message) {
      assert bytes == bytes[..2] + bytes[2..18] + bytes[18..];
      assert bytes[..2] == encoded[..2];
      assert bytes[18..] == encoded[18..];
      assert encoded == encoded[..2] + encoded[2..18] + encoded[18..];
    }
  }

  /** The bytes of each message: version 1, its kind, sixteen bytes of id, and the code of a refusal's reason. */
  lemma Layout(id: AttemptId)
    ensures Encode(Request(id)) == [1, 1] + id
    ensures Encode(RequestAccepted(id)) == [1, 2] + id
    ensures Encode(RequestRejected(id, Unspecified)) == [1, 3] + id + [0]
    ensures Encode(RequestRejected(id, Busy)) == [1, 3] + id + [1]
    ensures Encode(RequestRejected(id, Declined)) == [1, 3] + id + [2]
  {
  }

  /** Why a byte string is refused: the first thing wrong with it, in the order of its bytes. */
  lemma RefusedExactly(bytes: seq<Byte>)
    ensures var n := |bytes|;
            if n < 18 || n > 19 then Decode(bytes) == Err(InvalidLength(n))
            else if bytes[0] != 1 then Decode(bytes) == Err(UnsupportedVersion(bytes[0]))
            else if bytes[1] < 1 || bytes[1] > 3 then Decode(bytes) == Err(UnknownMessageKind(bytes[1]))
            else if (n == 19) != (bytes[1] == 3) then Decode(bytes) == Err(LengthKindMismatch(bytes[1], n))
            else if n == 19 && bytes[18] > 2 then Decode(bytes) == Err(UnknownRejectionReason(bytes[18]))
            else Decode(bytes).Ok?
  {
  }
}
