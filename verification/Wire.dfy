// wire.go: the in-memory cursor and the append buffer.  A cursor is specified by the bytes
// it has not passed yet, so every read maps that rest to a result and a new rest.
module Wire {
  import opened Types
  import opened BigEndian
  import opened Codec

  datatype Scan<+T> = Scan(res: Result<T>, rest: seq<byte>)

  function CursorInt(n: nat, s: seq<byte>): (r: Scan<int>)
    requires n > 0
    ensures r.res.Ok? ==> -Half(n) <= r.res.value < Half(n)
  {
    if |s| < n then Scan(Err(UnexpectedEOF), s)
    else
      PutGet(s[..n]);
      Scan(Ok(Get(s[..n])), s[n..])
  }

  function CursorInt16(s: seq<byte>): (r: Scan<int16>)
    ensures r == CursorInt(2, s)
  {
    Widths();
    var r := CursorInt(2, s);
    match r.res case Ok(v) => Scan(Ok(v), r.rest) case Err(e) => Scan(Err(e), r.rest)
  }

  function CursorInt32(s: seq<byte>): (r: Scan<int32>)
    ensures r == CursorInt(4, s)
  {
    Widths();
    var r := CursorInt(4, s);
    match r.res case Ok(v) => Scan(Ok(v), r.rest) case Err(e) => Scan(Err(e), r.rest)
  }

  function CursorInt64(s: seq<byte>): (r: Scan<int64>)
    ensures r == CursorInt(8, s)
  {
    Widths();
    var r := CursorInt(8, s);
    match r.res case Ok(v) => Scan(Ok(v), r.rest) case Err(e) => Scan(Err(e), r.rest)
  }

  function CursorBytes(s: seq<byte>): Scan<Nullable> {
    var c := CursorInt32(s);
    match c.res
    case Err(e) => Scan(Err(e), c.rest)
    case Ok(n) =>
      if n < 0 then Scan(Ok(Nil), c.rest)
      else if n > |c.rest| then Scan(Err(UnexpectedEOF), c.rest)
      else Scan(Ok(Slice(c.rest[..n])), c.rest[n..])
  }

  // A negative length reads as the empty string here, unlike in TakeString.
  function CursorString(s: seq<byte>): (r: Scan<seq<byte>>)
    ensures r.res.Ok? ==> |r.res.value| <= MAX_INT16
  {
    var c := CursorInt16(s);
    match c.res
    case Err(e) => Scan(Err(e), c.rest)
    case Ok(n) =>
      if n < 0 then Scan(Ok([]), c.rest)
      else if n > |c.rest| then Scan(Err(UnexpectedEOF), c.rest)
      else Scan(Ok(c.rest[..n]), c.rest[n..])
  }

  function CursorHeader(s: seq<byte>): Scan<RequestHeader> {
    var c1 := CursorInt16(s);
    match c1.res case Err(e) => Scan(Err(e), c1.rest) case Ok(apiKey) =>
    var c2 := CursorInt16(c1.rest);
    match c2.res case Err(e) => Scan(Err(e), c2.rest) case Ok(apiVersion) =>
    var c3 := CursorInt32(c2.rest);
    match c3.res case Err(e) => Scan(Err(e), c3.rest) case Ok(corr) =>
    var c4 := CursorString(c3.rest);
    match c4.res case Err(e) => Scan(Err(e), c4.rest) case Ok(clientID) =>
    Scan(Ok(RequestHeader(apiKey, apiVersion, corr, clientID)), c4.rest)
  }

  lemma IntMoves(n: nat, s: seq<byte>)
    requires n > 0
    ensures var c := CursorInt(n, s);
            && (c.res.Ok? ==> |s| >= n && c.rest == s[n..] && s == Put(n, c.res.value) + c.rest)
            && (c.res.Err? ==> |s| < n && c.rest == s)
  {
    if |s| >= n {
      PutGet(s[..n]);
    }
  }

  lemma CursorPut(n: nat, v: int, rest: seq<byte>)
    requires n > 0 && -Half(n) <= v < Half(n)
    ensures CursorInt(n, Put(n, v) + rest) == Scan(Ok(v), rest)
  {
    var s := Put(n, v) + rest;
    assert s[..n] == Put(n, v) && s[n..] == rest;
    GetPut(n, v);
  }

  lemma CursorStringWire(v: seq<byte>, rest: seq<byte>)
    requires |v| <= MAX_INT16
    ensures CursorString(StringWire(v) + rest) == Scan(Ok(v), rest)
  {
    Widths();
    CursorPut(2, |v|, v + rest);
    assert StringWire(v) + rest == Put(2, |v|) + (v + rest);
    assert (v + rest)[..|v|] == v && (v + rest)[|v|..] == rest;
  }

  class ByteReader {
    const b: seq<byte>
    var i: nat

    ghost predicate Valid()
      reads this
    {
      i <= |b|
    }

    ghost function Rest(): seq<byte>
      reads this
      requires Valid()
    {
      b[i..]
    }

    constructor (b: seq<byte>)
      ensures Valid() && this.b == b && Rest() == b
    {
      this.b, this.i := b, 0;
    }

    function Remaining(): (n: nat)
      reads this
      requires Valid()
      ensures n == |Rest()|
    {
      |b| - i
    }

    method ReadInt8() returns (r: Result<int8>)
      requires Valid()
      modifies this`i
      ensures Valid() && Scan(r, Rest()) == CursorInt(1, old(Rest()))
    {
      if Remaining() < 1 { return Err(UnexpectedEOF); }
      Widths();
      PutGet(b[i..i + 1]);
      r := Ok(Get(b[i..i + 1]));
      i := i + 1;
      assert old(Rest())[..1] == b[old(i)..i];
    }

    method ReadInt16() returns (r: Result<int16>)
      requires Valid()
      modifies this`i
      ensures Valid() && Scan(r, Rest()) == CursorInt16(old(Rest()))
    {
      if Remaining() < 2 { return Err(UnexpectedEOF); }
      Widths();
      PutGet(b[i..i + 2]);
      r := Ok(Get(b[i..i + 2]));
      i := i + 2;
      assert old(Rest())[..2] == b[old(i)..i];
    }

    method ReadInt32() returns (r: Result<int32>)
      requires Valid()
      modifies this`i
      ensures Valid() && Scan(r, Rest()) == CursorInt32(old(Rest()))
    {
      if Remaining() < 4 { return Err(UnexpectedEOF); }
      Widths();
      PutGet(b[i..i + 4]);
      r := Ok(Get(b[i..i + 4]));
      i := i + 4;
      assert old(Rest())[..4] == b[old(i)..i];
    }

    method ReadInt64() returns (r: Result<int64>)
      requires Valid()
      modifies this`i
      ensures Valid() && Scan(r, Rest()) == CursorInt64(old(Rest()))
    {
      if Remaining() < 8 { return Err(UnexpectedEOF); }
      Widths();
      PutGet(b[i..i + 8]);
      r := Ok(Get(b[i..i + 8]));
      i := i + 8;
      assert old(Rest())[..8] == b[old(i)..i];
    }

    method ReadBytes() returns (r: Result<Nullable>)
      requires Valid()
      modifies this`i
      ensures Valid() && Scan(r, Rest()) == CursorBytes(old(Rest()))
    {
      var n := ReadInt32();
      if n.Err? { return Err(n.error); }
      if n.value < 0 { return Ok(Nil); }
      if n.value > Remaining() { return Err(UnexpectedEOF); }
      ghost var rest := Rest();
      r := Ok(Slice(b[i..i + n.value]));
      i := i + n.value;
      assert rest[..n.value] == r.value.bytes && rest[n.value..] == Rest();
    }

    method ReadString() returns (r: Result<seq<byte>>)
      requires Valid()
      modifies this`i
      ensures Valid() && Scan(r, Rest()) == CursorString(old(Rest()))
    {
      var n := ReadInt16();
      if n.Err? { return Err(n.error); }
      if n.value < 0 { return Ok([]); }
      if n.value > Remaining() { return Err(UnexpectedEOF); }
      ghost var rest := Rest();
      r := Ok(b[i..i + n.value]);
      i := i + n.value;
      assert rest[..n.value] == r.value && rest[n.value..] == Rest();
    }
  }

  // wire.go:149 parseRequestHeader: the header and the rest of the body.
  method ParseRequestHeader(body: seq<byte>) returns (h: Result<RequestHeader>, rest: seq<byte>)
    ensures h == CursorHeader(body).res
    ensures rest == if h.Ok? then CursorHeader(body).rest else []
  {
    var r := new ByteReader(body);
    var apiKey := r.ReadInt16();
    if apiKey.Err? { return Err(apiKey.error), []; }
    var apiVersion := r.ReadInt16();
    if apiVersion.Err? { return Err(apiVersion.error), []; }
    var corr := r.ReadInt32();
    if corr.Err? { return Err(corr.error), []; }
    var clientID := r.ReadString();
    if clientID.Err? { return Err(clientID.error), []; }
    h := Ok(RequestHeader(apiKey.value, apiVersion.value, corr.value, clientID.value));
    rest := body[r.i..];
  }

  // Where the fields of a header lie; a client id of negative length reads as empty.
  lemma HeaderAt(s: seq<byte>)
    requires CursorHeader(s).res.Ok?
    ensures var h := CursorHeader(s).res.value;
            && |s| >= 10
            && h.apiKey == Get(s[..2]) && h.apiVersion == Get(s[2..4]) && h.correlationID == Get(s[4..8])
            && var n := Get(s[8..10]);
               if n < 0 then h.clientID == [] && CursorHeader(s).rest == s[10..]
               else n <= |s| - 10 && h.clientID == s[10..10 + n] && CursorHeader(s).rest == s[10 + n..]
  {
    hide Get;
    assert s[2..][..2] == s[2..4] && s[2..][2..] == s[4..];
    assert s[4..][..4] == s[4..8] && s[4..][4..] == s[8..];
    assert s[8..][..2] == s[8..10] && s[8..][2..] == s[10..];
    var n := Get(s[8..10]);
    if n >= 0 {
      assert s[10..][..n] == s[10..10 + n] && s[10..][n..] == s[10 + n..];
    }
  }

  // ----- Cursor discipline, over any sequence of calls -----

  datatype Call = Int8 | Int16 | Int32 | Int64 | Bytes | String

  // The bytes of a call's fixed part: a whole integer, or the length prefix.
  function Prefix(c: Call): nat {
    match c
    case Int8 => 1
    case Int16 => 2
    case Int32 => 4
    case Int64 => 8
    case Bytes => 4
    case String => 2
  }

  function Perform(c: Call, s: seq<byte>): (bool, seq<byte>) {
    match c
    case Int8 => var r := CursorInt(1, s); (r.res.Ok?, r.rest)
    case Int16 => var r := CursorInt16(s); (r.res.Ok?, r.rest)
    case Int32 => var r := CursorInt32(s); (r.res.Ok?, r.rest)
    case Int64 => var r := CursorInt64(s); (r.res.Ok?, r.rest)
    case Bytes => var r := CursorBytes(s); (r.res.Ok?, r.rest)
    case String => var r := CursorString(s); (r.res.Ok?, r.rest)
  }

  function PerformAll(calls: seq<Call>, s: seq<byte>): seq<byte> {
    if calls == [] then s else PerformAll(calls[1..], Perform(calls[0], s).1)
  }

  ghost predicate Suffix(t: seq<byte>, s: seq<byte>) {
    |t| <= |s| && t == s[|s| - |t|..]
  }

  // One call: a failed fixed-width read does not move the cursor and a failed
  // length-prefixed read moves it by its prefix at most; a success passes the prefix.
  lemma CallDiscipline(c: Call, s: seq<byte>)
    ensures var (ok, t) := Perform(c, s);
            && Suffix(t, s)
            && (ok ==> |s| - |t| >= Prefix(c))
            && (!ok ==> |s| - |t| == 0 || ((c.Bytes? || c.String?) && |s| - |t| == Prefix(c)))
  {
    hide CursorInt;
    IntMoves(Prefix(c), s);
  }

  // Any calls: the cursor only advances, over the same bytes, and never past the end.
  lemma {:induction false} CursorDiscipline(calls: seq<Call>, s: seq<byte>)
    ensures Suffix(PerformAll(calls, s), s)
  {
    if calls != [] {
      var t := Perform(calls[0], s).1;
      CallDiscipline(calls[0], s);
      CursorDiscipline(calls[1..], t);
      var u := PerformAll(calls, s);
      assert t[|t| - |u|..] == s[|s| - |u|..];
    }
  }

  // ----- The append buffer -----

  // writeBytes has no nil: it writes length 0 for it.
  function PlainBytesWire(v: Nullable): seq<byte> {
    Put(4, |Payload(v)|) + Payload(v)
  }

  function ResponseWire(correlationID: int32, payload: seq<byte>): seq<byte> {
    Put(4, 4 + |payload|) + Put(4, correlationID) + payload
  }

  class ByteWriter {
    var b: seq<byte>

    constructor ()
      ensures b == []
    {
      b := [];
    }

    method WriteInt8(v: int8)
      modifies this
      ensures b == old(b) + Put(1, v)
    {
      b := b + Put(1, v);
    }

    method WriteInt16(v: int16)
      modifies this
      ensures b == old(b) + Put(2, v)
    {
      b := b + Put(2, v);
    }

    method WriteInt32(v: int32)
      modifies this
      ensures b == old(b) + Put(4, v)
    {
      b := b + Put(4, v);
    }

    method WriteInt64(v: int64)
      modifies this
      ensures b == old(b) + Put(8, v)
    {
      b := b + Put(8, v);
    }

    method WriteBytes(v: Nullable)
      modifies this
      ensures b == old(b) + PlainBytesWire(v)
    {
      var n := ToInt32(|Payload(v)|);
      PutToInt32(|Payload(v)|);
      WriteInt32(n);
      b := b + Payload(v);
    }

    method WriteString(s: seq<byte>)
      modifies this
      ensures b == old(b) + StringWire(s)
    {
      var n := ToInt16(|s|);
      PutToInt16(|s|);
      WriteInt16(n);
      b := b + s;
    }
  }

  // wire.go:168 encodeResponse
  method EncodeResponse(correlationID: int32, payload: seq<byte>) returns (r: seq<byte>)
    ensures r == ResponseWire(correlationID, payload)
  {
    var w := new ByteWriter();
    var n := ToInt32(4 + |payload|);
    PutToInt32(4 + |payload|);
    w.WriteInt32(n);
    w.WriteInt32(correlationID);
    w.b := w.b + payload;
    r := w.b;
  }
}
