/** Message framing (crates/teleport-core/src/protocol.rs). The bincode codec
    is a pair of functions supplied by the caller; a frame is the payload
    length as a little-endian `u32` followed by the payload. */
module Protocol {
  import opened Ints
  import opened Wrappers
  import opened Types
  import Errors

  /** The error bincode reports (its text). */
  type CodecError = string

  /** `serialize_message`: `len.to_le_bytes()` then the payload. The length
      is cast to `u32`, which wraps for payloads of 4 GiB or more. */
  function SerializeMessage<M>(encode: M -> Result<seq<u8>, CodecError>, msg: M)
    : (r: Result<seq<u8>, CodecError>)
    ensures encode(msg).Err? ==> r == Err(encode(msg).error)
    ensures encode(msg).Ok? ==>
              && r.Ok? && |r.value| == 4 + |encode(msg).value|
              && r.value[4..] == encode(msg).value
              && r.value[..4] == LeBytes32(|encode(msg).value| % TWO_32)
  {
    var payload :- encode(msg);
    var len: u32 := |payload| % TWO_32;
    Ok(LeBytes32(len) + payload)
  }

  /** `deserialize_message`: bincode on the bytes after the prefix. */
  function DeserializeMessage<M>(decode: seq<u8> -> Result<M, CodecError>, data: seq<u8>)
    : Result<M, CodecError>
  {
    decode(data)
  }

  /** Why a frame could not be received: the stream ended early, or the
      prefix announced more than `MAX_MESSAGE_SIZE` bytes. */
  datatype RecvError = ShortRead | Protocol(error: Errors.ProtocolError)

  /** The receive side of the framing (`recv_message` in the daemon's
      networking code) on the bytes available in the stream: read the
      prefix, refuse lengths over `MAX_MESSAGE_SIZE`, take that many bytes. */
  function RecvFrame(bytes: seq<u8>): (r: Result<seq<u8>, RecvError>)
    ensures r.Ok? ==>
              && |r.value| <= MAX_MESSAGE_SIZE && 4 + |r.value| <= |bytes|
              && r.value == bytes[4..4 + |r.value|]
    ensures r == Err(ShortRead) <==>
      |bytes| < 4 || (FromLeBytes32(bytes[..4]) <= MAX_MESSAGE_SIZE && |bytes| < 4 + FromLeBytes32(bytes[..4]))
    ensures r.Err? && r.error.Protocol? <==> |bytes| >= 4 && FromLeBytes32(bytes[..4]) > MAX_MESSAGE_SIZE
  {
    if |bytes| < 4 then Err(ShortRead)
    else
      var n := FromLeBytes32(bytes[..4]);
      if n > MAX_MESSAGE_SIZE then Err(Protocol(Errors.MessageTooLarge(n, MAX_MESSAGE_SIZE)))
      else if 4 + n <= |bytes| then Ok(bytes[4..4 + n])
      else Err(ShortRead)
  }

  /** For payloads shorter than 4 GiB the prefix decodes to the payload
      length and the frame is longer than 4 bytes exactly when the payload
      is non-empty; a payload within `MAX_MESSAGE_SIZE` is received back
      unchanged, a larger one is refused as too large. */
  lemma FrameRoundTrip<M>(encode: M -> Result<seq<u8>, CodecError>, msg: M)
    requires encode(msg).Ok? && |encode(msg).value| < TWO_32
    ensures var frame := SerializeMessage(encode, msg).value;
      && FromLeBytes32(frame[..4]) == |encode(msg).value|
      && (|frame| > 4 <==> |encode(msg).value| > 0)
      && (|encode(msg).value| <= MAX_MESSAGE_SIZE ==> RecvFrame(frame) == Ok(encode(msg).value))
      && (|encode(msg).value| > MAX_MESSAGE_SIZE ==> RecvFrame(frame).Err? && RecvFrame(frame).error.Protocol?)
  {
    var payload := encode(msg).value;
    var frame := SerializeMessage(encode, msg).value;
    assert |payload| % TWO_32 == |payload|;
    LeBytesRoundTrip(|payload|);
    assert frame == frame[..4] + payload;
    RecvOfFrame(frame[..4], payload);
  }

  /** A frame whose prefix announces exactly the bytes that follow. */
  lemma RecvOfFrame(prefix: seq<u8>, payload: seq<u8>)
    requires |prefix| == 4 && FromLeBytes32(prefix) == |payload|
    ensures |payload| <= MAX_MESSAGE_SIZE ==> RecvFrame(prefix + payload) == Ok(payload)
    ensures |payload| > MAX_MESSAGE_SIZE ==>
      RecvFrame(prefix + payload).Err? && RecvFrame(prefix + payload).error.Protocol?
  {
    var frame := prefix + payload;
    assert frame[..4] == prefix;
    assert frame[4..4 + |payload|] == payload;
  }

  /** With a codec whose decoder inverts its encoder, skipping the four
      prefix bytes and deserialising yields the original message. */
  lemma MessageRoundTrip<M>(encode: M -> Result<seq<u8>, CodecError>,
                            decode: seq<u8> -> Result<M, CodecError>, msg: M)
    requires encode(msg).Ok? && decode(encode(msg).value) == Ok(msg)
    ensures DeserializeMessage(decode, SerializeMessage(encode, msg).value[4..]) == Ok(msg)
  {
  }
}
