// One concrete input for each limit of the code whose exact condition is proved elsewhere.
module Limits {
  import opened Types
  import opened BigEndian
  import opened Streams
  import opened Codec
  import opened Wire
  import opened Messages
  import opened MessageSets
  import opened Frames
  import opened Requests

  // Twelve bytes: an entry header with offset 0 and size -1.
  lemma PanicExample()
    ensures DecodeSet([0, 0, 0, 0, 0, 0, 0, 0, 0xff, 0xff, 0xff, 0xff]) == Panicked
  {
    var s: seq<byte> := [0, 0, 0, 0, 0, 0, 0, 0, 0xff, 0xff, 0xff, 0xff];
    assert s[8..12] == [0xff, 0xff, 0xff, 0xff];
    AllOnes();
    GetPut(4, -1) by { Widths(); }
    NextEntryNegative(s);
  }

  // Two bytes: a string of length -1.
  lemma NegativeLengthExample()
    ensures TakeString([0xff, 0xff]) == Bad(InvalidStringLength(-1))
    ensures CursorString([0xff, 0xff]) == Scan(Ok([]), [])
  {
    var s: seq<byte> := [0xff, 0xff];
    assert s[..2] == s && s[2..] == [] && s[..1] == [0xff];
    assert Get(s) == Get([0xff]) * 256 + 0xff == -1;
  }

  // Four bytes: a stream that ends behind the length of a one-byte frame ends like no
  // stream at all.
  lemma CutBehindLengthExample()
    ensures TakeFrames([0, 0, 0, 1]) == TakeFrames([]) == FrameRun([], EOF)
  {
    var s: seq<byte> := [0, 0, 0, 1];
    assert s[..4] == s && s[4..] == [];
    assert s[..3] == [0, 0, 0] && s[..3][..2] == [0, 0] && [0, 0][..1] == [0];
    assert Get([0, 0]) == Get([0]) * 256 + 0 == 0;
    assert Get([0, 0, 0]) == Get([0, 0]) * 256 + 0 == 0;
    assert Get(s) == 1;
    EmptyStream();
  }

  // The shortest value whose length does not fit.
  lemma OversizedValueExample()
    ensures var value := Slice(seq(0x8000_0000, _ => 0));
            Decode(Encoded(Nil, value)) != Ok(Plain(Nil, value))
  {
    hide Decode, Encoded;
    MessageRoundTrip(Nil, Slice(seq(0x8000_0000, _ => 0)));
  }

  // The shortest topic WriteString refuses, with an empty value.
  lemma LongTopicExample()
    ensures var topic := seq(0x8000, _ => 0);
            ParseRequest(FrameWire(RequestBody(1, topic, 0, Nil))) != Some(Intended(1, topic, 0, Nil))
  {
    hide ParseRequest, FrameWire, EncodedSet;
    var topic: seq<byte> := seq(0x8000, _ => 0);
    BodyLength(1, topic, 0, EncodedSet(Nil));
    EncodedLength(Nil);
    RequestRoundTrip(1, topic, 0, Nil, []);
    var wire := FrameWire(RequestBody(1, topic, 0, Nil));
    assert wire + [] == wire;
  }
}
