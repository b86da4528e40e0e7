// client.go: one client and its persistent connection.
module Clients {
  import opened Types
  import opened Streams
  import opened Codec
  import opened Frames
  import opened Requests
  import opened Replies

  // A call returns, or waits for the mutex forever.
  datatype Outcome<+T> = Returned(result: T) | Blocked

  // All output is whole request frames, all input read so far is whole reply frames, and
  // there is one reply for every request.
  ghost predicate Aligned(s: Stream)
    reads s
  {
    exists n :: IsFrames(s.output, n) && IsFrames(s.received, n)
  }

  // The bytes a stream delivered beyond got0 and those it has yet to deliver.
  ghost function Onward(c: Stream, got0: seq<byte>): seq<byte>
    reads c
  {
    var all := c.received + c.input;
    if |got0| <= |all| then all[|got0|..] else []
  }

  // On a connection that had sent out0 and received got0, body went out as one whole
  // frame, one whole reply frame came in, no call on the connection failed, and r is what
  // scanning the reply for corr gives.
  ghost predicate Exchanged(
      c: Stream, out0: seq<byte>, got0: seq<byte>, faults0: nat, body: seq<byte>,
      corr: int32, topic: seq<byte>, partition: int32, r: Result<int64>)
    reads c
  {
    var reply := TakeFrame(Onward(c, got0));
    && |body| <= MAX_INT32 && c.faults == faults0
    && c.output == out0 + FrameWire(body)
    && reply.Got? && reply.rest == c.input
    && c.received == got0 + FrameWire(reply.value)
    && r == ScanReply(reply.value, corr, topic, partition)
  }

  // The I/O failures that make Produce call Close: a request too large for a frame, a
  // Read or Write on the connection that failed during the call, or no reply frame to read.
  ghost predicate Hopeless(c: Stream, got0: seq<byte>, faults0: nat, body: seq<byte>)
    reads c
  {
    |body| > MAX_INT32 || c.faults > faults0 || TakeFrame(Onward(c, got0)).Bad?
  }

  // client.go:82-143 without the calls of Close: None stands for an I/O failure.
  method Exchange(c: Stream, body: seq<byte>, corr: int32, topic: seq<byte>, partition: int32)
    returns (r: Option<Result<int64>>)
    modifies c`input, c`received, c`output, c`faults
    ensures r.Some? ==>
              Exchanged(c, old(c.output), old(c.received), old(c.faults), body, corr, topic, partition, r.value)
    ensures r.None? <==> Hopeless(c, old(c.received), old(c.faults), body)
  {
    hide ScanReply, TakeFrame, FrameWire;
    ghost var got0, in0 := c.received, c.input;
    var werr := WriteFrame(c, body);
    assert Onward(c, got0) == in0;
    if werr.Some? { return None; }
    var resp := ReadFrame(c);
    assert Onward(c, got0) == in0;
    if resp.Err? { return None; }
    FrameRead(in0);
    assert got0 + in0 == (got0 + FrameWire(resp.value)) + c.input;
    Cancel(c.received, got0 + FrameWire(resp.value), c.input);
    var result := ScanResponse(resp.value, corr, topic, partition);
    r := Some(result);
  }

  lemma Cancel(a: seq<byte>, b: seq<byte>, c: seq<byte>)
    requires a + c == b + c
    ensures a == b
  {
    assert (a + c)[..|a|] == a && (b + c)[..|b|] == b;
  }

  lemma FrameRead(s: seq<byte>)
    ensures var p := TakeFrame(s);
            p.Got? ==> |p.value| <= MAX_INT32 && s == FrameWire(p.value) + p.rest
  {}

  // One exchange on an aligned connection leaves it aligned.
  lemma StaysAligned(c: Stream, out0: seq<byte>, got0: seq<byte>, faults0: nat, n: nat, body: seq<byte>,
                     corr: int32, topic: seq<byte>, partition: int32, r: Result<int64>)
    requires IsFrames(out0, n) && IsFrames(got0, n)
    requires Exchanged(c, out0, got0, faults0, body, corr, topic, partition, r)
    ensures Aligned(c)
  {
    hide ScanReply, TakeFrame, FrameWire, IsFrames;
    FrameRead(Onward(c, got0));
    OneMoreFrame(out0, n, body);
    OneMoreFrame(got0, n, TakeFrame(Onward(c, got0)).value);
  }

  class Client {
    const addr: seq<byte>
    var seqNo: int32      // seq
    var locked: bool      // mu is held
    var conn: Stream?

    // While nobody holds the mutex, a kept connection sits between two exchanges.
    ghost predicate Valid()
      reads this, conn
    {
      !locked && conn != null ==> Aligned(conn)
    }

    // client.go:22 NewClient
    constructor (addr: seq<byte>)
      ensures Valid() && this.addr == addr && !locked && conn == null && seqNo == 0
    {
      this.addr := addr;
      this.seqNo, this.locked, this.conn := 0, false, null;
    }

    method Close() returns (o: Outcome<Option<Error>>)
      requires Valid()
      modifies this`locked, this`conn, conn
      ensures Valid() && locked == old(locked)
      ensures old(locked) ==> o == Blocked && conn == old(conn) && (conn != null ==> unchanged(conn))
      ensures !old(locked) ==> o.Returned? && conn == null
      ensures !old(locked) && old(conn) == null ==> o == Returned(None)
      ensures !old(locked) && old(conn) != null ==> old(conn).closed && o == Returned(old(conn).closeErr)
    {
      if locked { return Blocked; }
      locked := true;
      if conn == null {
        locked := false;
        return Returned(None);
      }
      var err := conn.Close();
      conn := null;
      locked := false;
      o := Returned(err);
    }

    // The dialer's part: a new stream with any bytes to come, or an error.
    static method Dial() returns (s: Stream?)
      ensures s != null ==> fresh(s) && s.output == s.received == [] && s.faults == 0
    {
      var fails: bool := *;
      if fails { return null; }
      var input: seq<byte> := *;
      var reliable: bool := *;
      s := new Stream(input, reliable);
    }

    method ConnOrDial() returns (err: Option<Error>)
      modifies this`conn
      ensures err.Some? ==> err == Some(DialFailed) && old(conn) == null == conn
      ensures err.None? ==> conn != null
      ensures old(conn) != null ==> conn == old(conn)
      ensures old(conn) == null && conn != null ==>
                fresh(conn) && conn.output == conn.received == [] && conn.faults == 0
    {
      if conn != null { return None; }
      var s := Dial();
      if s == null { return Some(DialFailed); }
      conn := s;
      err := None;
    }

    // What a connection had sent, or received, when a call found it; a new one nothing.
    ghost function SentBefore(c: Stream?): seq<byte>
      reads c
    {
      if c == null then [] else c.output
    }

    ghost function ReceivedBefore(c: Stream?): seq<byte>
      reads c
    {
      if c == null then [] else c.received
    }

    ghost function FaultsBefore(c: Stream?): nat
      reads c
    {
      if c == null then 0 else c.faults
    }

    // client.go:62-143, with the mutex held.
    method ProduceLocked(topic: seq<byte>, partition: int32, value: Nullable)
      returns (o: Outcome<Result<int64>>)
      requires locked && (conn != null ==> Aligned(conn))
      modifies this`locked, this`seqNo, this`conn, conn
      ensures locked
      ensures conn == null ==> old(conn) == null && o == Returned(Err(DialFailed)) && seqNo == old(seqNo)
      ensures conn != null ==>
                (if old(conn) != null then conn == old(conn) else fresh(conn)) && seqNo == ToInt32(old(seqNo) + 1)
      ensures conn != null && o.Returned? ==>
                && Aligned(conn)
                && Exchanged(conn, old(SentBefore(conn)), old(ReceivedBefore(conn)), old(FaultsBefore(conn)),
                             RequestBody(seqNo, topic, partition, value), seqNo, topic, partition, o.result)
      ensures o.Blocked? ==> conn != null
      ensures conn != null ==>
                (o.Blocked? <==> Hopeless(conn, old(ReceivedBefore(conn)), old(FaultsBefore(conn)),
                                          RequestBody(seqNo, topic, partition, value)))
    {
      hide RequestBody, ScanReply, TakeFrame, FrameWire, IsFrames, ToInt32, Exchanged, Hopeless;
      ghost var out0, got0, faults0 := SentBefore(conn), ReceivedBefore(conn), FaultsBefore(conn);
      var err := ConnOrDial();
      if err.Some? { return Returned(Err(err.value)); }
      ghost var n := FrameCount(conn, old(conn) == null);
      seqNo := ToInt32(seqNo + 1);
      var body := PrintRequest(seqNo, topic, partition, value);
      var r := Exchange(conn, body, seqNo, topic, partition);
      if r.None? {
        var c := Close();   // waits for the mutex this call holds
        return Blocked;
      }
      StaysAligned(conn, out0, got0, faults0, n, body, seqNo, topic, partition, r.value);
      o := Returned(r.value);
    }

    // client.go:55 Produce.  The key is not sent.
    method Produce(topic: seq<byte>, partition: int32, key: Nullable, value: Nullable)
      returns (o: Outcome<Result<int64>>)
      requires Valid()
      modifies this, conn
      ensures Valid()
      // Not configured: nothing happens.
      ensures addr == [] ==>
                o == Returned(Err(NotConfigured)) && unchanged(this) && (conn != null ==> unchanged(conn))
      // Mutex held: the call waits, and touches nothing.
      ensures addr != [] && old(locked) ==>
                o == Blocked && unchanged(this) && (conn != null ==> unchanged(conn))
      // A call that got the mutex gives it back exactly if it returns.
      ensures addr != [] && !old(locked) ==> (locked <==> o.Blocked?)
      // It uses the connection it finds, or a fresh one, or fails to dial.
      ensures addr != [] && !old(locked) && conn == null ==>
                old(conn) == null && o == Returned(Err(DialFailed)) && seqNo == old(seqNo)
      ensures addr != [] && !old(locked) && conn != null ==>
                (if old(conn) != null then conn == old(conn) else fresh(conn)) && seqNo == ToInt32(old(seqNo) + 1)
      // If it returns, it has written one whole request, read one whole reply, and reports
      // what scanning that reply for its correlation id gives; the connection is kept.
      ensures addr != [] && !old(locked) && conn != null && o.Returned? ==>
                Exchanged(conn, old(SentBefore(conn)), old(ReceivedBefore(conn)), old(FaultsBefore(conn)),
                          RequestBody(seqNo, topic, partition, value), seqNo, topic, partition, o.result)
      // It blocks, holding the mutex for ever, exactly on an I/O failure.
      ensures addr != [] && !old(locked) && o.Blocked? ==> conn != null
      ensures addr != [] && !old(locked) && conn != null ==>
                (o.Blocked? <==> Hopeless(conn, old(ReceivedBefore(conn)), old(FaultsBefore(conn)),
                                          RequestBody(seqNo, topic, partition, value)))
    {
      hide RequestBody, ToInt32, Exchanged, Hopeless, Aligned;
      if addr == [] { return Returned(Err(NotConfigured)); }
      if locked { return Blocked; }
      locked := true;
      o := ProduceLocked(topic, partition, value);
      if o.Returned? { locked := false; }
    }
  }

  lemma FrameCount(c: Stream, isNew: bool) returns (n: nat)
    requires if isNew then c.output == c.received == [] else Aligned(c)
    ensures IsFrames(c.output, n) && IsFrames(c.received, n)
  {
    if isNew {
      NoFrames();
      n := 0;
    } else {
      n :| IsFrames(c.output, n) && IsFrames(c.received, n);
    }
  }

  // Returning and an I/O failure exclude each other on every connection.
  lemma BlocksExactly(c: Stream, out0: seq<byte>, got0: seq<byte>, faults0: nat, body: seq<byte>,
                      corr: int32, topic: seq<byte>, partition: int32, r: Result<int64>)
    ensures !(Exchanged(c, out0, got0, faults0, body, corr, topic, partition, r) && Hopeless(c, got0, faults0, body))
  {}
}
