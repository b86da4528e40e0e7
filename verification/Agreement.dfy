// The two codecs side by side: codec.go over streams, wire.go over memory.
module Agreement {
  import opened Types
  import opened BigEndian
  import opened Streams
  import opened Codec
  import opened Wire

  // Both readers succeed or both fail, and a success is the same value leaving the same rest.
  predicate Agree<T(==)>(p: Parsed<T>, c: Scan<T>) {
    if p.Got? then c == Scan(Ok(p.value), p.rest) else c.res.Err?
  }

  // The string length at the front of s is negative.
  predicate NegativeLength(s: seq<byte>) {
    |s| >= 2 && Get(s[..2]) < 0
  }

  lemma IntReadersAgree(n: nat, s: seq<byte>)
    requires n > 0
    ensures Agree(TakeInt(n, s), CursorInt(n, s))
  {}

  lemma BytesReadersAgree(s: seq<byte>)
    ensures Agree(TakeBytes(s), CursorBytes(s))
  {
    IntReadersAgree(4, s);
  }

  // The string readers agree on exactly the inputs without a negative length; there
  // ReadString reports an error and readString returns "" having read two bytes.
  lemma StringReadersAgree(s: seq<byte>)
    ensures Agree(TakeString(s), CursorString(s)) <==> !NegativeLength(s)
    ensures NegativeLength(s) ==>
              && TakeString(s) == Bad(InvalidStringLength(Get(s[..2])))
              && CursorString(s) == Scan(Ok([]), s[2..])
  {
    IntReadersAgree(2, s);
  }

  lemma HeaderReadersAgree(s: seq<byte>)
    ensures Agree(TakeHeader(s), CursorHeader(s)) <==> !(|s| >= 8 && NegativeLength(s[8..]))
  {
    IntReadersAgree(2, s);
    if |s| >= 2 {
      IntReadersAgree(2, s[2..]);
    }
    if |s| >= 4 {
      IntReadersAgree(4, s[4..]);
      assert s[2..][2..] == s[4..];
    }
    if |s| >= 8 {
      StringReadersAgree(s[8..]);
      assert s[4..][4..] == s[8..];
    }
  }

  // writeBytes prints what WriteBytes prints, except that it has no nil.
  lemma BytesWritersAgree(b: Nullable)
    ensures PlainBytesWire(b) == BytesWire(b) <==> b.Slice?
    ensures b.Nil? ==> PlainBytesWire(b) == [0, 0, 0, 0]
  {
    if b.Nil? {
      PutBytes(0);
      Widths();
      GetPut(4, 0);
      GetPut(4, -1);
      assert PlainBytesWire(b)[..4] == Put(4, 0) && BytesWire(b)[..4] == Put(4, -1);
    }
  }

  // For strings the two writers emit the same bytes exactly up to 32767 bytes; a longer
  // string leaves no byte in one and a wrapped length before all its bytes in the other.
  method CompareStringWriters(s: seq<byte>) returns (stream: seq<byte>, buffer: seq<byte>)
    ensures stream == StringWritten(s) && buffer == StringWire(s)
    ensures stream == buffer <==> |s| <= MAX_INT16
  {
    var w := new Stream([], true);
    var err := Codec.WriteString(w, s);
    var b := new ByteWriter();
    b.WriteString(s);
    stream, buffer := w.output, b.b;
  }

  // And exactly those strings are read back.
  lemma StringReadsBack(s: seq<byte>, rest: seq<byte>)
    ensures CursorString(StringWire(s) + rest) == Scan(Ok(s), rest) <==> |s| <= MAX_INT16
  {
    if |s| <= MAX_INT16 {
      CursorStringWire(s, rest);
    }
  }

  // encodeResponse is a frame, and a reader gets the correlation id and payload back
  // exactly when 4+len(payload) fits the frame's length field.
  lemma ResponseIsFrame(correlationID: int32, payload: seq<byte>)
    ensures ResponseWire(correlationID, payload) == FrameWire(Put(4, correlationID) + payload)
    ensures TakeFrame(ResponseWire(correlationID, payload)) == Got(Put(4, correlationID) + payload, [])
       <==> 4 + |payload| <= MAX_INT32
    ensures CursorInt32(Put(4, correlationID) + payload) == Scan(Ok(correlationID), payload)
  {
    var body := Put(4, correlationID) + payload;
    assert ResponseWire(correlationID, payload) == FrameWire(body);
    if |body| <= MAX_INT32 {
      TakeFrameWire(body, []);
      assert FrameWire(body) + [] == FrameWire(body);
    }
    Widths();
    TakePut(4, correlationID, payload);
    IntReadersAgree(4, body);
  }
}
