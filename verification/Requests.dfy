// client.go:67-80: the produce request that Produce prints.
module Requests {
  import opened Types
  import opened BigEndian
  import opened Streams
  import opened Codec
  import opened Messages
  import opened MessageSets
  import opened Wire

  const API_PRODUCE: int16 := 0

  // "iomesh-kafka-client"
  const CLIENT_ID: seq<byte> :=
    [0x69, 0x6f, 0x6d, 0x65, 0x73, 0x68, 0x2d, 0x6b, 0x61, 0x66, 0x6b, 0x61, 0x2d, 0x63, 0x6c, 0x69, 0x65, 0x6e, 0x74]

  function ProduceHeader(corr: int32): RequestHeader {
    RequestHeader(API_PRODUCE, 1, corr, CLIENT_ID)
  }

  // The body around a record set.  The error of WriteString is ignored, so a topic too
  // long for it leaves no trace.
  function BodyAround(corr: int32, topic: seq<byte>, partition: int32, records: seq<byte>): seq<byte> {
    HeaderWire(ProduceHeader(corr)) + Put(2, 1) + Put(4, 5000) + Put(4, 1) + StringWritten(topic)
    + Put(4, 1) + Put(4, partition) + BytesWire(Slice(records))
  }

  function RequestBody(corr: int32, topic: seq<byte>, partition: int32, value: Nullable): seq<byte> {
    BodyAround(corr, topic, partition, EncodedSet(value))
  }

  method PrintRequest(corr: int32, topic: seq<byte>, partition: int32, value: Nullable) returns (r: seq<byte>)
    ensures r == RequestBody(corr, topic, partition, value)
  {
    var recordSet := EncodeMessageSetV1(value);
    r := PrintBody(corr, topic, partition, recordSet);
  }

  // The errors of the writes into the buffer are ignored, as at client.go:69-80.
  method PrintBody(corr: int32, topic: seq<byte>, partition: int32, recordSet: seq<byte>) returns (r: seq<byte>)
    ensures r == BodyAround(corr, topic, partition, recordSet)
  {
    var body := new Stream([], true);   // a bytes.Buffer
    PrintHeader(body, corr);
    ghost var h := HeaderWire(ProduceHeader(corr));
    var _ := WriteInt16(body, 1);
    ghost var h1 := h + Put(2, 1);
    var _ := WriteInt32(body, 5000);
    ghost var h2 := h1 + Put(4, 5000);
    var _ := WriteInt32(body, 1);
    ghost var h3 := h2 + Put(4, 1);
    var _ := WriteString(body, topic);
    ghost var h4 := h3 + StringWritten(topic);
    assert body.output == h4;
    var _ := WriteInt32(body, 1);
    var _ := WriteInt32(body, partition);
    assert body.output == h4 + Put(4, 1) + Put(4, partition);
    var _ := WriteBytes(body, Slice(recordSet));
    r := body.output;
  }

  method PrintHeader(body: Stream, corr: int32)
    requires body.reliable && body.output == []
    modifies body`output, body`faults
    ensures body.output == HeaderWire(ProduceHeader(corr))
  {
    var _ := WriteInt16(body, API_PRODUCE);
    var _ := WriteInt16(body, 1);
    var _ := WriteInt32(body, corr);
    var _ := WriteString(body, CLIENT_ID);
  }

  // ----- Reading a request back with the repository's own readers -----

  datatype Fields = Fields(
    header: RequestHeader, acks: int16, timeout: int32, topicCount: int32, topic: seq<byte>,
    partitionCount: int32, partition: int32, records: Nullable, rest: seq<byte>)

  // parseRequestHeader and the field readers over a request body.
  function ParseFields(body: seq<byte>): (r: Option<Fields>)
    ensures r.Some? ==> |r.value.topic| <= MAX_INT16
  {
    var h := CursorHeader(body);
    match h.res case Err(_) => None case Ok(header) =>
    var c1 := CursorInt16(h.rest);
    match c1.res case Err(_) => None case Ok(acks) =>
    var c2 := CursorInt32(c1.rest);
    match c2.res case Err(_) => None case Ok(timeout) =>
    var c3 := CursorInt32(c2.rest);
    match c3.res case Err(_) => None case Ok(topicCount) =>
    var c4 := CursorString(c3.rest);
    match c4.res case Err(_) => None case Ok(topic) =>
    var c5 := CursorInt32(c4.rest);
    match c5.res case Err(_) => None case Ok(partitionCount) =>
    var c6 := CursorInt32(c5.rest);
    match c6.res case Err(_) => None case Ok(partition) =>
    var c7 := CursorBytes(c6.rest);
    match c7.res case Err(_) => None case Ok(records) =>
    Some(Fields(header, acks, timeout, topicCount, topic, partitionCount, partition, records, c7.rest))
  }

  // The fields and the values in the record set.
  datatype Request = Request(fields: Fields, values: SetResult)

  function ParseBody(body: seq<byte>): Option<Request> {
    match ParseFields(body)
    case None => None
    case Some(f) => Some(Request(f, DecodeSet(Payload(f.records))))
  }

  function IntendedFields(corr: int32, topic: seq<byte>, partition: int32, records: seq<byte>): Fields {
    Fields(ProduceHeader(corr), 1, 5000, 1, topic, 1, partition, Slice(records), [])
  }

  // The request Produce means to send.
  function Intended(corr: int32, topic: seq<byte>, partition: int32, value: Nullable): Request {
    Request(IntendedFields(corr, topic, partition, EncodedSet(value)), Values([value]))
  }

  // ----- The one size check -----

  lemma BodyLength(corr: int32, topic: seq<byte>, partition: int32, records: seq<byte>)
    ensures |BodyAround(corr, topic, partition, records)| == 51 + |StringWritten(topic)| + |records|
  {
    assert |HeaderWire(ProduceHeader(corr))| == 29;
  }

  lemma Nested(corr: int32, topic: seq<byte>, partition: int32, value: Nullable)
    ensures |Payload(value)| < |Encoded(Nil, value)| < |EncodedSet(value)|
          < |RequestBody(corr, topic, partition, value)|
  {
    EncodedLength(value);
    BodyLength(corr, topic, partition, EncodedSet(value));
  }

  // Whenever the body is short enough for WriteFrame, no earlier length conversion has
  // wrapped: value, message and record set are each strictly shorter than the frame.
  lemma SizeCheckProtects(corr: int32, topic: seq<byte>, partition: int32, value: Nullable)
    requires |RequestBody(corr, topic, partition, value)| <= MAX_INT32
    ensures ToInt32(|Payload(value)|) == |Payload(value)|
    ensures ToInt32(|Encoded(Nil, value)|) == |Encoded(Nil, value)|
    ensures ToInt32(|EncodedSet(value)|) == |EncodedSet(value)| <= MAX_INT32
    ensures Fits(value) && FitsMessage(value)
  {
    hide RequestBody, Encoded, EncodedSet, ToInt32;
    Nested(corr, topic, partition, value);
    NoWrap(|Payload(value)|);
    NoWrap(|Encoded(Nil, value)|);
    NoWrap(|EncodedSet(value)|);
    EncodedLength(value);
  }

  lemma NoWrap(n: nat)
    ensures ToInt32(n) == n <==> n <= MAX_INT32
  {}

  // ----- The whole-request round trip -----

  lemma CursorBytesWire(v: seq<byte>, rest: seq<byte>)
    requires |v| <= MAX_INT32
    ensures CursorBytes(BytesWire(Slice(v)) + rest) == Scan(Ok(Slice(v)), rest)
  {
    Widths();
    CursorPut(4, |v|, v + rest);
    assert BytesWire(Slice(v)) + rest == Put(4, |v|) + (v + rest);
    assert (v + rest)[..|v|] == v && (v + rest)[|v|..] == rest;
  }

  lemma CursorHeaderWire(h: RequestHeader, rest: seq<byte>)
    requires |h.clientID| <= MAX_INT16
    ensures CursorHeader(HeaderWire(h) + rest) == Scan(Ok(h), rest)
  {
    hide Put, Get, CursorInt, CursorString, StringWire;
    Widths();
    var s3 := StringWire(h.clientID) + rest;
    var s2 := Put(4, h.correlationID) + s3;
    CursorPut(2, h.apiKey, Put(2, h.apiVersion) + s2);
    CursorPut(2, h.apiVersion, s2);
    CursorPut(4, h.correlationID, s3);
    CursorStringWire(h.clientID, rest);
    assert HeaderWire(h) + rest == Put(2, h.apiKey) + (Put(2, h.apiVersion) + s2);
  }

  // A whole request off a stream: ReadFrame, then the body.
  function ParseRequest(s: seq<byte>): Option<Request> {
    match TakeFrame(s) case Got(body, _) => ParseBody(body) case Bad(_) => None
  }

  // Every frame Produce writes is read back as exactly the intended request, with nothing
  // left over and whatever follows on the stream, if and only if the topic fits its
  // length field.
  lemma RequestRoundTrip(corr: int32, topic: seq<byte>, partition: int32, value: Nullable, rest: seq<byte>)
    requires |RequestBody(corr, topic, partition, value)| <= MAX_INT32
    ensures var body := RequestBody(corr, topic, partition, value);
            && TakeFrame(FrameWire(body) + rest) == Got(body, rest)
            && (ParseRequest(FrameWire(body) + rest) == Some(Intended(corr, topic, partition, value))
                <==> |topic| <= MAX_INT16)
  {
    hide RequestBody, ParseBody, Intended, FrameWire, TakeFrame;
    TakeFrameWire(RequestBody(corr, topic, partition, value), rest);
    BodyRoundTrip(corr, topic, partition, value);
  }

  lemma BodyRoundTrip(corr: int32, topic: seq<byte>, partition: int32, value: Nullable)
    requires |RequestBody(corr, topic, partition, value)| <= MAX_INT32
    ensures ParseBody(RequestBody(corr, topic, partition, value)) == Some(Intended(corr, topic, partition, value))
       <==> |topic| <= MAX_INT16
  {
    hide BodyAround, ParseFields, EncodedSet, DecodeSet;
    if |topic| <= MAX_INT16 {
      SizeCheckProtects(corr, topic, partition, value);
      FieldsRoundTrip(corr, topic, partition, EncodedSet(value));
      SetRoundTrip(value);
    }
  }

  // What is sent, in so many words: whatever the topic, partition and value, a produce
  // request (api key 0, version 1) of "iomesh-kafka-client" with this correlation id, one
  // acknowledgement, a timeout of 5000, one topic and one partition.
  lemma RequestFields(corr: int32, topic: seq<byte>, partition: int32, value: Nullable)
    requires |RequestBody(corr, topic, partition, value)| <= MAX_INT32 && |topic| <= MAX_INT16
    ensures ParseFields(RequestBody(corr, topic, partition, value))
         == Some(Fields(
              RequestHeader(0, 1, corr, [0x69, 0x6f, 0x6d, 0x65, 0x73, 0x68, 0x2d, 0x6b, 0x61, 0x66, 0x6b, 0x61,
                                         0x2d, 0x63, 0x6c, 0x69, 0x65, 0x6e, 0x74]),
              1, 5000, 1, topic, 1, partition, Slice(EncodedSet(value)), []))
  {
    hide BodyAround, ParseFields, EncodedSet;
    SizeCheckProtects(corr, topic, partition, value);
    FieldsRoundTrip(corr, topic, partition, EncodedSet(value));
  }

  // The same byte by byte, for every topic, also one too long to be written.
  lemma RequestBytes(corr: int32, topic: seq<byte>, partition: int32, value: Nullable)
    ensures RequestBody(corr, topic, partition, value)
         == [0, 0, 0, 1] + Put(4, corr)
            + ([0, 19] + [0x69, 0x6f, 0x6d, 0x65, 0x73, 0x68, 0x2d, 0x6b, 0x61, 0x66, 0x6b, 0x61,
                          0x2d, 0x63, 0x6c, 0x69, 0x65, 0x6e, 0x74])
            + [0, 1] + [0, 0, 0x13, 0x88] + [0, 0, 0, 1]
            + (if |topic| <= MAX_INT16 then StringWire(topic) else [])
            + [0, 0, 0, 1] + Put(4, partition) + BytesWire(Slice(EncodedSet(value)))
  {
    HeaderBytes(corr);
    Constants();
    hide EncodedSet, BytesWire, Put, HeaderWire, StringWire, ProduceHeader;
  }

  lemma HeaderBytes(corr: int32)
    ensures HeaderWire(ProduceHeader(corr))
         == [0, 0, 0, 1] + Put(4, corr)
            + ([0, 19] + [0x69, 0x6f, 0x6d, 0x65, 0x73, 0x68, 0x2d, 0x6b, 0x61, 0x66, 0x6b, 0x61,
                          0x2d, 0x63, 0x6c, 0x69, 0x65, 0x6e, 0x74])
  {
    Constants();
    hide Put;
    assert [0, 0] + [0, 1] == [0, 0, 0, 1];
  }

  lemma Constants()
    ensures Put(2, 0) == [0, 0] && Put(2, 1) == [0, 1] && Put(2, 19) == [0, 19]
    ensures Put(4, 1) == [0, 0, 0, 1] && Put(4, 5000) == [0, 0, 0x13, 0x88]
  {
    hide Put;
    PutBytes(0);
    PutBytes(1);
    PutBytes(19);
    PutBytes(5000);
  }

  lemma FieldsRoundTrip(corr: int32, topic: seq<byte>, partition: int32, records: seq<byte>)
    requires |topic| <= MAX_INT16 && |records| <= MAX_INT32
    ensures ParseFields(BodyAround(corr, topic, partition, records))
         == Some(IntendedFields(corr, topic, partition, records))
  {
    hide Put, Get, HeaderWire, CursorHeader, CursorInt, CursorString, CursorBytes, StringWire, BytesWire;
    var s7 := BytesWire(Slice(records));
    var s6 := Put(4, partition) + s7;
    var s5 := Put(4, 1) + s6;
    var s4 := StringWire(topic) + s5;
    var s3 := Put(4, 1) + s4;
    var s2 := Put(4, 5000) + s3;
    var s1 := Put(2, 1) + s2;
    Regroup(HeaderWire(ProduceHeader(corr)), Put(2, 1), Put(4, 5000), Put(4, 1), StringWire(topic),
            Put(4, 1), Put(4, partition), s7);
    Widths();
    CursorHeaderWire(ProduceHeader(corr), s1);
    CursorPut(2, 1, s2);
    CursorPut(4, 5000, s3);
    CursorPut(4, 1, s4);
    CursorStringWire(topic, s5);
    CursorPut(4, 1, s6);
    CursorPut(4, partition, s7);
    CursorBytesWire(records, []);
    assert s7 + [] == s7;
  }

  lemma Regroup(a: seq<byte>, b: seq<byte>, c: seq<byte>, d: seq<byte>, e: seq<byte>,
                f: seq<byte>, g: seq<byte>, h: seq<byte>)
    ensures a + b + c + d + e + f + g + h == a + (b + (c + (d + (e + (f + (g + h))))))
  {}
}
