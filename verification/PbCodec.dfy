/** pb_encode into a buffer, and pb_decode of what is in it. */
module PbCodec {
  import opened Wrappers
  import opened Keys
  import opened Coding
  import opened PbVarint
  import opened PbMessage
  import opened PbDecoding
  import opened PbRoundTrip
  import PbEncoder
  import PbDecodeLoop

  // A message goes into a buffer exactly if it fits its types and the buffer has the room
  // that pb_get_encoded_size asks for; what is decoded from the buffer is the message.
  method EncodeAndDecode(fs: seq<Field>, slots: seq<Slot>, maxSize: nat)
    returns (buffer: Bytes, ok: bool, decoded: Option<seq<Slot>>)
    requires ValidFields(fs) && PbEncoder.TypedMessage(fs, slots)
    ensures ok <==> FitsMessage(fs, slots) && |Encode(fs, slots)| <= maxSize
    ensures ok ==> buffer == Encode(fs, slots)
    ensures ok && PartsFit(fs, slots) ==> decoded == Some(slots)
  {
    var stream := new PbEncoder.OStream(true, maxSize);
    ok := PbEncoder.PbEncode(stream, fs, slots);
    buffer := stream.out;
    decoded := None;
    if ok {
      assert [] + Encode(fs, slots) == Encode(fs, slots);
      decoded := PbDecodeLoop.PbDecodeNoinit(fs, buffer, Defaults(fs));
      if PartsFit(fs, slots) {
        EncodeDecode(fs, slots);
      }
    }
  }
}
