/**
  Encoder and decoder back to back, on real buffers and streams.
 */
module Transfer {
  import opened Wire
  import opened Schema
  import opened Encoding
  import opened RoundTrip
  import opened Encoder
  import opened Decoder
  import opened RequiredBits
  import Decoding

  /**
    A struct encoded into a buffer of `room` bytes and decoded from the bytes written. It
    fails exactly when the encoded size exceeds the room, and then at the encoder; otherwise
    the receiver holds the struct that was sent, whatever its memory held before.
   */
  method SendAndReceive(fields: seq<Field>, m: seq<Slot>, dest: seq<Slot>, room: nat)
    returns (ok: bool, received: seq<Slot>)
    requires WellFormed(fields) && SafeTable(fields) && MsgFits(fields, m) && MsgFits(fields, dest)
    requires PresenceTestable(fields) && MsgInBounds(fields, m) && Terminated(fields, m) && AddressableMsg(fields, m)
    ensures ok <==> EncodeMsg(fields, m).Some? && |EncodeMsg(fields, m).value| <= room
    ensures ok ==> MsgFits(fields, received) && SameMsg(fields, received, m)
  {
    hide EncodeMsg, Decoding.Decode, Lossless, SafeTable, MsgInBounds, Terminated, SameMsg;
    received := dest;
    var mem := new byte[room];
    var written;
    ok, written := EncodeIntoBuffer(mem, fields, m);
    if !ok {
      return;
    }
    RoundTripSafe(fields, m, dest);
    var stream := new IStream(mem[..written], 0, written);
    assert stream.Rest() == mem[..written];
    ok, received := DecodeFrom(stream, fields, dest);
  }
}
