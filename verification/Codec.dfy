// codec.go: the stream codecs.  For every kind of value there is its wire form, what
// reading it off a byte sequence gives, and the methods over streams proved against both.
module Codec {
  import opened Types
  import opened BigEndian
  import opened Streams

  datatype RequestHeader =
    RequestHeader(apiKey: int16, apiVersion: int16, correlationID: int32, clientID: seq<byte>)

  // ----- Wire forms.  Put wraps as Go's int16(len(s)) and int32(len(b)) do. -----

  function StringWire(s: seq<byte>): seq<byte> {
    Put(2, |s|) + s
  }

  // What WriteString leaves on a stream that does not fail.
  function StringWritten(s: seq<byte>): seq<byte> {
    if |s| > MAX_INT16 then [] else StringWire(s)
  }

  function BytesWire(b: Nullable): seq<byte> {
    match b
    case Nil => Put(4, -1)
    case Slice(bytes) => Put(4, |bytes|) + bytes
  }

  function HeaderWire(h: RequestHeader): seq<byte> {
    Put(2, h.apiKey) + Put(2, h.apiVersion) + Put(4, h.correlationID) + StringWire(h.clientID)
  }

  function FrameWire(payload: seq<byte>): seq<byte> {
    Put(4, |payload|) + payload
  }

  // ----- Reading -----

  // A big-endian two's complement integer of n bytes.
  function TakeInt(n: nat, s: seq<byte>): (r: Parsed<int>)
    requires n > 0
    ensures r.Got? <==> n <= |s|
    ensures r.Got? ==> -Half(n) <= r.value < Half(n) && s == Put(n, r.value) + r.rest
  {
    match Take(n, s)
    case Got(b, rest) =>
      PutGet(b);
      Got(Get(b), rest)
    case Bad(e) => Bad(e)
  }

  function TakeInt16(s: seq<byte>): (r: Parsed<int16>)
    ensures r == TakeInt(2, s)
  {
    Widths();
    match TakeInt(2, s) case Got(v, rest) => Got(v, rest) case Bad(e) => Bad(e)
  }

  function TakeInt32(s: seq<byte>): (r: Parsed<int32>)
    ensures r == TakeInt(4, s)
  {
    Widths();
    match TakeInt(4, s) case Got(v, rest) => Got(v, rest) case Bad(e) => Bad(e)
  }

  function TakeString(s: seq<byte>): (r: Parsed<seq<byte>>)
    ensures r.Got? ==> |r.value| <= MAX_INT16 && s == StringWire(r.value) + r.rest
  {
    match TakeInt16(s)
    case Got(n, rest) => if n < 0 then Bad(InvalidStringLength(n)) else Take(n, rest)
    case Bad(e) => Bad(e)
  }

  function TakeBytes(s: seq<byte>): (r: Parsed<Nullable>)
    ensures r.Got? && r.value.Slice? ==> |r.value.bytes| <= MAX_INT32 && s == BytesWire(r.value) + r.rest
  {
    match TakeInt32(s)
    case Got(n, rest) =>
      if n < 0 then Got(Nil, rest)
      else (match Take(n, rest) case Got(b, rest') => Got(Slice(b), rest') case Bad(e) => Bad(e))
    case Bad(e) => Bad(e)
  }

  function TakeHeader(s: seq<byte>): (r: Parsed<RequestHeader>)
    ensures r.Got? ==> s == HeaderWire(r.value) + r.rest
  {
    match TakeInt16(s) case Bad(e) => Bad(e) case Got(apiKey, s1) =>
    match TakeInt16(s1) case Bad(e) => Bad(e) case Got(apiVersion, s2) =>
    match TakeInt32(s2) case Bad(e) => Bad(e) case Got(corr, s3) =>
    match TakeString(s3) case Bad(e) => Bad(e) case Got(clientID, s4) =>
    Got(RequestHeader(apiKey, apiVersion, corr, clientID), s4)
  }

  function TakeFrame(s: seq<byte>): (r: Parsed<seq<byte>>)
    ensures r.Got? ==> |r.value| <= MAX_INT32 && s == FrameWire(r.value) + r.rest
  {
    match TakeInt32(s)
    case Got(n, rest) => if n < 0 then Bad(InvalidFrameSize(n)) else Take(n, rest)
    case Bad(e) => Bad(e)
  }

  // ----- Reading undoes writing, whatever follows -----

  lemma TakePut(n: nat, v: int, rest: seq<byte>)
    requires n > 0 && -Half(n) <= v < Half(n)
    ensures TakeInt(n, Put(n, v) + rest) == Got(v, rest)
  {
    var s := Put(n, v) + rest;
    assert s[..n] == Put(n, v) && s[n..] == rest;
    GetPut(n, v);
  }

  lemma TakeStringWire(v: seq<byte>, rest: seq<byte>)
    requires |v| <= MAX_INT16
    ensures TakeString(StringWire(v) + rest) == Got(v, rest)
  {
    Widths();
    TakePut(2, |v|, v + rest);
    assert StringWire(v) + rest == Put(2, |v|) + (v + rest);
    assert (v + rest)[..|v|] == v && (v + rest)[|v|..] == rest;
  }

  lemma TakeBytesWire(v: Nullable, rest: seq<byte>)
    requires v.Slice? ==> |v.bytes| <= MAX_INT32
    ensures TakeBytes(BytesWire(v) + rest) == Got(v, rest)
  {
    hide Put, Get;
    Widths();
    match v
    case Nil => TakePut(4, -1, rest);
    case Slice(b) =>
      TakePut(4, |b|, b + rest);
      assert BytesWire(v) + rest == Put(4, |b|) + (b + rest);
      assert (b + rest)[..|b|] == b && (b + rest)[|b|..] == rest;
  }

  lemma TakeHeaderWire(h: RequestHeader, rest: seq<byte>)
    requires |h.clientID| <= MAX_INT16
    ensures TakeHeader(HeaderWire(h) + rest) == Got(h, rest)
  {
    hide Put, Get, TakeInt, TakeString, StringWire;
    Widths();
    var s3 := StringWire(h.clientID) + rest;
    TakePut(2, h.apiKey, Put(2, h.apiVersion) + (Put(4, h.correlationID) + s3));
    TakePut(2, h.apiVersion, Put(4, h.correlationID) + s3);
    TakePut(4, h.correlationID, s3);
    TakeStringWire(h.clientID, rest);
    assert HeaderWire(h) + rest == Put(2, h.apiKey) + (Put(2, h.apiVersion) + (Put(4, h.correlationID) + s3));
  }

  lemma TakeFrameWire(payload: seq<byte>, rest: seq<byte>)
    requires |payload| <= MAX_INT32
    ensures TakeFrame(FrameWire(payload) + rest) == Got(payload, rest)
  {
    Widths();
    TakePut(4, |payload|, payload + rest);
    assert FrameWire(payload) + rest == Put(4, |payload|) + (payload + rest);
    assert (payload + rest)[..|payload|] == payload && (payload + rest)[|payload|..] == rest;
  }

  // ----- The formats, byte by byte -----

  lemma StringBytes(s: seq<byte>)
    requires |s| <= MAX_INT16
    ensures StringWire(s) == [|s| / 0x100, |s| % 0x100] + s
  {
    hide Put;
    PutBytes(|s|);
  }

  // A nil slice is four 0xff bytes, an empty one four zero bytes.
  lemma SliceBytes(bytes: seq<byte>)
    requires |bytes| <= MAX_INT32
    ensures BytesWire(Nil) == [0xff, 0xff, 0xff, 0xff]
    ensures var n := |bytes|;
            BytesWire(Slice(bytes)) == [n / 0x100_0000, n / 0x1_0000 % 0x100, n / 0x100 % 0x100, n % 0x100] + bytes
  {
    hide Put;
    PutBytes(-1);
    PutBytes(|bytes|);
  }

  lemma FrameBytes(payload: seq<byte>)
    requires |payload| <= MAX_INT32
    ensures var n := |payload|;
            FrameWire(payload) == [n / 0x100_0000, n / 0x1_0000 % 0x100, n / 0x100 % 0x100, n % 0x100] + payload
  {
    hide Put;
    PutBytes(|payload|);
  }

  // A slice is read exactly if its length field is there and, unless negative, followed by
  // that many bytes; every negative length reads as nil.
  lemma TakeBytesIff(s: seq<byte>, v: Nullable, rest: seq<byte>)
    ensures TakeBytes(s) == Got(v, rest) <==>
              && |s| >= 4
              && var n := Get(s[..4]);
                 if n < 0 then v == Nil && rest == s[4..]
                 else n + 4 <= |s| && v == Slice(s[4..n + 4]) && rest == s[n + 4..]
  {
    if |s| >= 4 {
      var n := Get(s[..4]);
      if 0 <= n && n + 4 <= |s| {
        assert s[4..][..n] == s[4..n + 4] && s[4..][n..] == s[n + 4..];
      }
    }
  }

  // Where the fields of a header lie.
  lemma HeaderFields(s: seq<byte>)
    requires TakeHeader(s).Got?
    ensures var h := TakeHeader(s).value;
            && |s| >= 10
            && h.apiKey == Get(s[..2]) && h.apiVersion == Get(s[2..4]) && h.correlationID == Get(s[4..8])
            && var n := Get(s[8..10]);
               && 0 <= n <= |s| - 10 && h.clientID == s[10..10 + n] && TakeHeader(s).rest == s[10 + n..]
  {
    hide Get;
    assert s[2..][..2] == s[2..4] && s[2..][2..] == s[4..];
    assert s[4..][..4] == s[4..8] && s[4..][4..] == s[8..];
    assert s[8..][..2] == s[8..10] && s[8..][2..] == s[10..];
    var n := Get(s[8..10]);
    assert s[10..][..n] == s[10..10 + n] && s[10..][n..] == s[10 + n..];
  }

  // A negative frame size is refused, a partial frame is not a frame.
  lemma FrameErrors(n: int32, rest: seq<byte>)
    ensures n < 0 ==> TakeFrame(Put(4, n) + rest) == Bad(InvalidFrameSize(n))
    ensures n > |rest| ==> TakeFrame(Put(4, n) + rest) == Bad(if rest == [] then EOF else UnexpectedEOF)
  {
    Widths();
    TakePut(4, n, rest);
  }

  // ----- The methods -----

  method ReadInt8(r: Stream) returns (v: Result<int8>)
    modifies r`input, r`received, r`faults
    ensures r.Delivered(old(r.input), old(r.received), old(r.faults), TakeInt(1, old(r.input)), v)
  {
    Widths();
    var buf := r.ReadFull(1);
    if buf.Err? { return Err(buf.error); }
    PutGet(buf.value);
    v := Ok(Get(buf.value));
  }

  method ReadInt16(r: Stream) returns (v: Result<int16>)
    modifies r`input, r`received, r`faults
    ensures r.Delivered(old(r.input), old(r.received), old(r.faults), TakeInt16(old(r.input)), v)
  {
    Widths();
    var buf := r.ReadFull(2);
    if buf.Err? { return Err(buf.error); }
    PutGet(buf.value);
    v := Ok(Get(buf.value));
  }

  method ReadInt32(r: Stream) returns (v: Result<int32>)
    modifies r`input, r`received, r`faults
    ensures r.Delivered(old(r.input), old(r.received), old(r.faults), TakeInt32(old(r.input)), v)
  {
    Widths();
    var buf := r.ReadFull(4);
    if buf.Err? { return Err(buf.error); }
    PutGet(buf.value);
    v := Ok(Get(buf.value));
  }

  method ReadInt64(r: Stream) returns (v: Result<int64>)
    modifies r`input, r`received, r`faults
    ensures r.Delivered(old(r.input), old(r.received), old(r.faults), TakeInt(8, old(r.input)), v)
  {
    Widths();
    var buf := r.ReadFull(8);
    if buf.Err? { return Err(buf.error); }
    PutGet(buf.value);
    v := Ok(Get(buf.value));
  }

  method ReadString(r: Stream) returns (v: Result<seq<byte>>)
    modifies r`input, r`received, r`faults
    ensures r.Delivered(old(r.input), old(r.received), old(r.faults), TakeString(old(r.input)), v)
  {
    var n := ReadInt16(r);
    if n.Err? { return Err(n.error); }
    if n.value < 0 { return Err(InvalidStringLength(n.value)); }
    if n.value == 0 { return Ok([]); }
    v := r.ReadFull(n.value);
  }

  method ReadBytes(r: Stream) returns (v: Result<Nullable>)
    modifies r`input, r`received, r`faults
    ensures r.Delivered(old(r.input), old(r.received), old(r.faults), TakeBytes(old(r.input)), v)
  {
    var n := ReadInt32(r);
    if n.Err? { return Err(n.error); }
    if n.value < 0 { return Ok(Nil); }
    var buf := r.ReadFull(n.value);
    if buf.Err? { return Err(buf.error); }
    v := Ok(Slice(buf.value));
  }

  method ReadRequestHeader(r: Stream) returns (v: Result<RequestHeader>)
    modifies r`input, r`received, r`faults
    ensures r.Delivered(old(r.input), old(r.received), old(r.faults), TakeHeader(old(r.input)), v)
  {
    var apiKey := ReadInt16(r);
    if apiKey.Err? { return Err(apiKey.error); }
    var apiVersion := ReadInt16(r);
    if apiVersion.Err? { return Err(apiVersion.error); }
    var corr := ReadInt32(r);
    if corr.Err? { return Err(corr.error); }
    var clientID := ReadString(r);
    if clientID.Err? { return Err(clientID.error); }
    v := Ok(RequestHeader(apiKey.value, apiVersion.value, corr.value, clientID.value));
  }

  method ReadFrame(r: Stream) returns (v: Result<seq<byte>>)
    modifies r`input, r`received, r`faults
    ensures r.Delivered(old(r.input), old(r.received), old(r.faults), TakeFrame(old(r.input)), v)
  {
    var size := ReadInt32(r);
    if size.Err? { return Err(size.error); }
    if size.value < 0 { return Err(InvalidFrameSize(size.value)); }
    v := r.ReadFull(size.value);
  }

  method WriteInt8(w: Stream, v: int8) returns (err: Option<Error>)
    modifies w`output, w`faults
    ensures w.Accepted(old(w.output), old(w.faults), Put(1, v), err)
  {
    err := w.WriteFull(Put(1, v));
  }

  method WriteInt16(w: Stream, v: int16) returns (err: Option<Error>)
    modifies w`output, w`faults
    ensures w.Accepted(old(w.output), old(w.faults), Put(2, v), err)
  {
    err := w.WriteFull(Put(2, v));
  }

  method WriteInt32(w: Stream, v: int32) returns (err: Option<Error>)
    modifies w`output, w`faults
    ensures w.Accepted(old(w.output), old(w.faults), Put(4, v), err)
  {
    err := w.WriteFull(Put(4, v));
  }

  method WriteInt64(w: Stream, v: int64) returns (err: Option<Error>)
    modifies w`output, w`faults
    ensures w.Accepted(old(w.output), old(w.faults), Put(8, v), err)
  {
    err := w.WriteFull(Put(8, v));
  }

  // A string too long for its length field is refused before anything is written.
  method WriteString(w: Stream, s: seq<byte>) returns (err: Option<Error>)
    modifies w`output, w`faults
    ensures |s| > MAX_INT16 ==> err == Some(StringTooLong) && unchanged(w)
    ensures |s| <= MAX_INT16 ==> w.Accepted(old(w.output), old(w.faults), StringWire(s), err)
  {
    if |s| > MAX_INT16 { return Some(StringTooLong); }
    err := WriteInt16(w, |s|);
    if err.Some? || |s| == 0 { return; }
    err := w.WriteFull(s);
  }

  // WriteInt32(w, int32(n)), as at codec.go:136
  method WriteLength(w: Stream, n: nat) returns (err: Option<Error>)
    modifies w`output, w`faults
    ensures w.Accepted(old(w.output), old(w.faults), Put(4, n), err)
  {
    PutToInt32(n);
    err := WriteInt32(w, ToInt32(n));
  }

  // No length check here: the length field of an oversized slice wraps.
  method WriteBytes(w: Stream, b: Nullable) returns (err: Option<Error>)
    modifies w`output, w`faults
    ensures w.Accepted(old(w.output), old(w.faults), BytesWire(b), err)
  {
    if b.Nil? {
      err := WriteInt32(w, -1);
      return;
    }
    err := WriteLength(w, |b.bytes|);
    if err.Some? || |b.bytes| == 0 { return; }
    err := w.WriteFull(b.bytes);
  }

  method WriteFrame(w: Stream, payload: seq<byte>) returns (err: Option<Error>)
    modifies w`output, w`faults
    ensures |payload| > MAX_INT32 ==> err == Some(FrameTooLarge) && unchanged(w)
    ensures |payload| <= MAX_INT32 ==> w.Accepted(old(w.output), old(w.faults), FrameWire(payload), err)
  {
    if |payload| > MAX_INT32 { return Some(FrameTooLarge); }
    err := WriteInt32(w, |payload|);
    if err.Some? { return; }
    err := w.WriteFull(payload);
  }
}
