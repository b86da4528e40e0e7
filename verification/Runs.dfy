// Concurrent Produce and Close calls on one Client, byte by byte, against a server that
// answers each request once and in order.  A step is one lock, one dial, one short write,
// one short read, one answer, or one failure; any interleaving of steps is a run.
module Runs {
  import opened Types
  import opened BigEndian
  import opened Streams
  import opened Codec
  import Frames
  import opened Wire
  import opened Agreement
  import opened Requests
  import opened Replies

  datatype Call = Call(topic: seq<byte>, partition: int32, value: Nullable)

  function BodyOf(call: Call, corr: int32): seq<byte> {
    RequestBody(corr, call.topic, call.partition, call.value)
  }

  // The server's answer to one request, both without their frame lengths.
  datatype Exchange = Exchange(request: seq<byte>, reply: seq<byte>)

  // A connection: the bytes in flight each way, the answers given on it so far, and how
  // many requests the client has begun to send on it.
  datatype Conn = Conn(toServer: seq<byte>, toClient: seq<byte>, answers: seq<Exchange>, begun: nat)

  datatype Phase =
    | Idle
    | WantProduce(call: Call)                                              // at client.go:59
    | Holding(call: Call)                                                  // at client.go:62
    | Writing(call: Call, corr: int32, slot: nat, unsent: seq<byte>)       // at client.go:82
    | Reading(call: Call, corr: int32, slot: nat, got: seq<byte>)          // at client.go:86
    | Finished(call: Call, corr: int32, result: Result<int64>, read: Option<Exchange>)
    | WantClose                                                            // at client.go:31
    | Closing                                                              // at client.go:36
    | Stuck(call: Call, corr: int32)               // Close called from Produce, at client.go:31

  datatype State = State(seqNo: int32, mu: Option<nat>, conn: Option<Conn>, threads: map<nat, Phase>)

  // Between the Lock and the Unlock of Produce or Close.
  predicate Critical(p: Phase) {
    !(p.Idle? || p.WantProduce? || p.WantClose?)
  }

  // ----- Steps; None when a step is not enabled -----

  function Goto(s: State, t: nat, p: Phase): State {
    s.(threads := s.threads[t := p])
  }

  function Lock(s: State, t: nat): Option<State>
    requires t in s.threads
  {
    if s.mu.Some? then None
    else match s.threads[t]
      case WantProduce(call) => Some(Goto(s, t, Holding(call)).(mu := Some(t)))
      case WantClose => Some(Goto(s, t, Closing).(mu := Some(t)))
      case _ => None
  }

  function Unlock(s: State, t: nat): Option<State>
    requires t in s.threads
  {
    match s.threads[t]
    case Finished(_, _, _, _) => Some(Goto(s, t, Idle).(mu := None))
    case Closing => Some(Goto(s, t, Idle).(mu := None, conn := None))
    case _ => None
  }

  function Dial(s: State, t: nat, succeeds: bool): Option<State>
    requires t in s.threads
  {
    var p := s.threads[t];
    if !p.Holding? || s.conn.Some? then None
    else if succeeds then Some(s.(conn := Some(Conn([], [], [], 0))))
    else Some(Goto(s, t, Finished(p.call, 0, Err(DialFailed), None)))
  }

  // The counter advances; a body too large for a frame is an I/O failure.
  function Begin(s: State, t: nat): Option<State>
    requires t in s.threads
  {
    var p := s.threads[t];
    if !p.Holding? || s.conn.None? then None
    else
      var corr := ToInt32(s.seqNo + 1);
      var body := BodyOf(p.call, corr);
      var c := s.conn.value;
      if |body| > MAX_INT32 then Some(Goto(s, t, Stuck(p.call, corr)).(seqNo := corr))
      else Some(Goto(s, t, Writing(p.call, corr, c.begun, FrameWire(body)))
                .(seqNo := corr, conn := Some(c.(begun := c.begun + 1))))
  }

  function WriteSome(s: State, t: nat, k: nat): Option<State>
    requires t in s.threads
  {
    var p := s.threads[t];
    if !p.Writing? || s.conn.None? || !(0 < k <= |p.unsent|) then None
    else
      var c := s.conn.value;
      var p' := if k == |p.unsent| then Reading(p.call, p.corr, p.slot, [])
                else p.(unsent := p.unsent[k..]);
      Some(Goto(s, t, p').(conn := Some(c.(toServer := c.toServer + p.unsent[..k]))))
  }

  // The server takes one whole request and answers it for its correlation id.
  function Serve(s: State, payload: seq<byte>): Option<State> {
    if s.conn.None? || 4 + |payload| > MAX_INT32 then None
    else
      var c := s.conn.value;
      match TakeFrame(c.toServer)
      case Bad(_) => None
      case Got(body, rest) =>
        match CursorHeader(body).res
        case Err(_) => None
        case Ok(h) => Some(s.(conn := Some(Answered(c, body, rest, h.correlationID, payload))))
  }

  function Answered(c: Conn, body: seq<byte>, rest: seq<byte>, corr: int32, payload: seq<byte>): Conn {
    Conn(rest, c.toClient + ResponseWire(corr, payload),
         c.answers + [Exchange(body, Put(4, corr) + payload)], c.begun)
  }

  // io.ReadFull never asks for more than the length prefix, then the announced size.
  function Wanted(got: seq<byte>): int {
    if |got| < 4 then 4 - |got| else 4 + Get(got[..4]) - |got|
  }

  function ReadSome(s: State, t: nat, k: nat): Option<State>
    requires t in s.threads
  {
    var p := s.threads[t];
    if !p.Reading? || s.conn.None? then None
    else
      var c := s.conn.value;
      if !(0 < k <= |c.toClient| && k <= Wanted(p.got)) then None
      else Some(Goto(s, t, AfterRead(p, p.got + c.toClient[..k], c))
                .(conn := Some(c.(toClient := c.toClient[k..]))))
  }

  // A whole reply is scanned; a negative size is an I/O failure.
  function AfterRead(p: Phase, got: seq<byte>, c: Conn): Phase
    requires p.Reading?
  {
    match TakeFrame(got)
    case Got(reply, _) =>
      Finished(p.call, p.corr, ScanReply(reply, p.corr, p.call.topic, p.call.partition),
               if p.slot < |c.answers| then Some(c.answers[p.slot]) else None)
    case Bad(InvalidFrameSize(_)) => Stuck(p.call, p.corr)
    case Bad(_) => p.(got := got)
  }

  // Any read or write may fail: Produce calls Close, which waits for the mutex.
  function Fail(s: State, t: nat): Option<State>
    requires t in s.threads
  {
    var p := s.threads[t];
    if p.Writing? || p.Reading? then Some(Goto(s, t, Stuck(p.call, p.corr))) else None
  }

  // What the call of Close is for: close the connection in place and return.
  function CloseInPlace(s: State, t: nat): Option<State>
    requires t in s.threads
  {
    var p := s.threads[t];
    if p.Stuck? then Some(Goto(s, t, Finished(p.call, p.corr, Err(IOFailure), None)).(conn := None)) else None
  }

  datatype Step =
    | DoCall(t: nat, call: Option<Call>)   // Some: Produce, None: Close
    | DoLock(t: nat)
    | DoUnlock(t: nat)
    | DoDial(t: nat, succeeds: bool)
    | DoBegin(t: nat)
    | DoWrite(t: nat, k: nat)
    | DoServe(payload: seq<byte>)
    | DoRead(t: nat, k: nat)
    | DoFail(t: nat)
    | DoCloseInPlace(t: nat)

  // With repaired false these are the steps of the code as written; with repaired true a
  // failed call closes the connection in place instead of waiting for its own mutex.
  function Apply(repaired: bool, s: State, step: Step): Option<State> {
    if !step.DoServe? && step.t !in s.threads then None
    else match step
      case DoCall(t, call) =>
        if !s.threads[t].Idle? then None
        else Some(Goto(s, t, if call.Some? then WantProduce(call.value) else WantClose))
      case DoLock(t) => Lock(s, t)
      case DoUnlock(t) => Unlock(s, t)
      case DoDial(t, succeeds) => Dial(s, t, succeeds)
      case DoBegin(t) => Begin(s, t)
      case DoWrite(t, k) => WriteSome(s, t, k)
      case DoServe(payload) => Serve(s, payload)
      case DoRead(t, k) => ReadSome(s, t, k)
      case DoFail(t) => Fail(s, t)
      case DoCloseInPlace(t) => if repaired then CloseInPlace(s, t) else None
  }

  // A new client shared by any set of threads.
  function Start(threads: set<nat>): State {
    State(0, None, None, map t | t in threads :: Idle)
  }

  // The state after a list of steps, if each was enabled in its turn.
  function Run(repaired: bool, s: State, steps: seq<Step>): Option<State>
    decreases |steps|
  {
    if steps == [] then Some(s)
    else match Apply(repaired, s, steps[0])
      case None => None
      case Some(s') => Run(repaired, s', steps[1..])
  }

  // ----- What every step keeps -----

  // Exactly the thread that holds the mutex is between Lock and Unlock.
  ghost predicate Exclusion(s: State) {
    && (s.mu.Some? ==> s.mu.value in s.threads)
    && (forall t :: t in s.threads ==> (Critical(s.threads[t]) <==> s.mu == Some(t)))
  }

  // Nothing is in flight and every request begun has its answer.
  ghost predicate Quiet(c: Conn) {
    c.toServer == [] && c.toClient == [] && |c.answers| == c.begun
  }

  // reply answers a request with this correlation id, and fits a frame.
  ghost predicate AnswersTo(x: Exchange, call: Call, corr: int32) {
    && x.request == BodyOf(call, corr)
    && |x.reply| <= MAX_INT32 && CursorInt32(x.reply).res == Ok(corr)
  }

  // The connection while the mutex holder is in phase p.
  ghost predicate Fits(c: Conn, p: Phase) {
    match p
    case Writing(call, corr, slot, unsent) =>
      && c.begun == slot + 1 == |c.answers| + 1
      && c.toClient == [] && unsent != []
      && |BodyOf(call, corr)| <= MAX_INT32 && c.toServer + unsent == FrameWire(BodyOf(call, corr))
    case Reading(call, corr, slot, got) =>
      && c.begun == slot + 1
      && |BodyOf(call, corr)| <= MAX_INT32
      && (Unanswered(c, call, corr, slot, got) || InReply(c, call, corr, slot, got))
    case Finished(call, corr, result, read) =>
      Quiet(c) && if read.Some? then OwnReply(c, call, corr, result, read.value) else NothingRead(result)
    case Stuck(_, _) => true
    case _ => Quiet(c)
  }

  ghost predicate Unanswered(c: Conn, call: Call, corr: int32, slot: nat, got: seq<byte>) {
    && |c.answers| == slot && got == [] && c.toClient == []
    && c.toServer == FrameWire(BodyOf(call, corr))
  }

  ghost predicate InReply(c: Conn, call: Call, corr: int32, slot: nat, got: seq<byte>) {
    && |c.answers| == slot + 1 && c.toServer == [] && AnswersTo(c.answers[slot], call, corr)
    && got + c.toClient == FrameWire(c.answers[slot].reply) && c.toClient != []
  }

  // The call's result is what its own request's answer says.
  ghost predicate OwnReply(c: Conn, call: Call, corr: int32, result: Result<int64>, x: Exchange) {
    && |c.answers| > 0 && x == c.answers[|c.answers| - 1] && AnswersTo(x, call, corr)
    && result == ScanReply(x.reply, corr, call.topic, call.partition)
  }

  // The result of a call that got no reply.
  predicate NothingRead(r: Result<int64>) {
    r == Err(DialFailed) || r == Err(IOFailure)
  }

  ghost predicate Inv(s: State) {
    && Exclusion(s)
    && (s.conn.Some? ==> if s.mu.None? then Quiet(s.conn.value) else Fits(s.conn.value, s.threads[s.mu.value]))
    && (s.conn.None? && s.mu.Some? ==> NeedsNoConn(s.threads[s.mu.value]))
  }

  // The phases that can hold the mutex without a connection.
  ghost predicate NeedsNoConn(p: Phase) {
    p.Holding? || p.Closing? || p.Stuck? || (p.Finished? && p.read.None? && NothingRead(p.result))
  }

  lemma StartInv(threads: set<nat>)
    ensures Inv(Start(threads))
  {}

  lemma ServedOwn(c: Conn, call: Call, corr: int32, slot: nat, got: seq<byte>, payload: seq<byte>)
    requires Unanswered(c, call, corr, slot, got) && |BodyOf(call, corr)| <= MAX_INT32 && 4 + |payload| <= MAX_INT32
    ensures TakeFrame(c.toServer) == Got(BodyOf(call, corr), [])
    ensures CursorHeader(BodyOf(call, corr)).res == Ok(ProduceHeader(corr))
    ensures InReply(Answered(c, BodyOf(call, corr), [], corr, payload), call, corr, slot, got)
  {
    hide RequestBody;
    TakeFrameWire(BodyOf(call, corr), []);
    assert c.toServer + [] == c.toServer;
    BodyHeader(call, corr);
    ResponseIsFrame(corr, payload);
  }

  lemma BodyHeader(call: Call, corr: int32)
    ensures CursorHeader(BodyOf(call, corr)).res == Ok(ProduceHeader(corr))
  {
    hide HeaderWire, StringWritten, BytesWire, CursorHeader;
    var body := BodyOf(call, corr);
    var rest := body[|HeaderWire(ProduceHeader(corr))|..];
    assert body == HeaderWire(ProduceHeader(corr)) + rest;
    CursorHeaderWire(ProduceHeader(corr), rest);
  }

  lemma NoFrameInNothing()
    ensures TakeFrame([]).Bad?
  {}

  // Nothing is served while a request is not completely sent, or is answered already.
  lemma NotServed(s: seq<byte>, unsent: seq<byte>, body: seq<byte>)
    requires s + unsent == FrameWire(body) && unsent != [] && |body| <= MAX_INT32
    ensures TakeFrame(s).Bad?
  {
    var n := |s|;
    assert s == FrameWire(body)[..n];
    Frames.PartialFrame(body, n);
  }

  lemma ServeInv(s: State, payload: seq<byte>, s': State)
    requires Inv(s) && Serve(s, payload) == Some(s')
    ensures Inv(s')
  {
    hide BodyOf, FrameWire, TakeFrame, CursorHeader, ResponseWire;
    NoFrameInNothing();
    var c := s.conn.value;
    if s.mu.Some? && (s.threads[s.mu.value].Writing? || s.threads[s.mu.value].Reading?) {
      var p := s.threads[s.mu.value];
      match p
      case Writing(call, corr, slot, unsent) => NotServed(c.toServer, unsent, BodyOf(call, corr));
      case Reading(call, corr, slot, got) =>
        if Unanswered(c, call, corr, slot, got) {
          ServedOwn(c, call, corr, slot, got, payload);
        }
    }
  }

  // Moving one thread that does not hold the mutex keeps everything.
  lemma CallInv(s: State, t: nat, p: Phase)
    requires Inv(s) && t in s.threads && !Critical(s.threads[t]) && !Critical(p)
    ensures Inv(Goto(s, t, p))
  {
    hide Fits, Quiet;
  }

  lemma LockInv(s: State, t: nat, s': State)
    requires Inv(s) && t in s.threads && Lock(s, t) == Some(s')
    ensures Inv(s')
  {
    hide Quiet;
  }

  lemma UnlockInv(s: State, t: nat, s': State)
    requires Inv(s) && t in s.threads && Unlock(s, t) == Some(s')
    ensures Inv(s')
  {
    hide Quiet, OwnReply;
  }

  lemma DialInv(s: State, t: nat, succeeds: bool, s': State)
    requires Inv(s) && t in s.threads && Dial(s, t, succeeds) == Some(s')
    ensures Inv(s')
  {}

  lemma BeginInv(s: State, t: nat, s': State)
    requires Inv(s) && t in s.threads && Begin(s, t) == Some(s')
    ensures Inv(s')
  {
    hide BodyOf;
  }

  lemma WriteInv(s: State, t: nat, k: nat, s': State)
    requires Inv(s) && t in s.threads && WriteSome(s, t, k) == Some(s')
    ensures Inv(s')
  {
    hide BodyOf, FrameWire;
    var p, c := s.threads[t], s.conn.value;
    assert c.toServer + p.unsent == (c.toServer + p.unsent[..k]) + p.unsent[k..];
    if k == |p.unsent| {
      assert c.toServer + p.unsent[..k] == FrameWire(BodyOf(p.call, p.corr));
    }
  }

  // A reply read in part asks for exactly its missing bytes; read in whole it is the frame.
  lemma ReplyRead(reply: seq<byte>, got: seq<byte>, chunk: seq<byte>, rest: seq<byte>)
    requires |reply| <= MAX_INT32 && got + (chunk + rest) == FrameWire(reply)
    ensures if rest == [] then TakeFrame(got + chunk) == Got(reply, [])
            else TakeFrame(got + chunk).Bad? && !TakeFrame(got + chunk).error.InvalidFrameSize?
  {
    var s := got + chunk;
    assert got + (chunk + rest) == s + rest;
    if rest == [] {
      assert s == FrameWire(reply) + [];
      TakeFrameWire(reply, []);
    } else {
      var n := |s|;
      assert s == FrameWire(reply)[..n];
      Frames.PartialFrame(reply, n);
    }
  }

  lemma ReadInv(s: State, t: nat, k: nat, s': State)
    requires Inv(s) && t in s.threads && ReadSome(s, t, k) == Some(s')
    ensures Inv(s')
  {
    hide BodyOf, FrameWire, TakeFrame, ScanReply, AnswersTo, Wanted;
    var p, c := s.threads[t], s.conn.value;
    var x := c.answers[p.slot];
    assert InReply(c, p.call, p.corr, p.slot, p.got);
    var chunk, rest := c.toClient[..k], c.toClient[k..];
    assert c.toClient == chunk + rest;
    assert |x.reply| <= MAX_INT32 by { AnswerFits(x, p.call, p.corr); }
    ReplyRead(x.reply, p.got, chunk, rest);
    assert p.got + c.toClient == (p.got + chunk) + rest;
  }

  lemma AnswerFits(x: Exchange, call: Call, corr: int32)
    requires AnswersTo(x, call, corr)
    ensures |x.reply| <= MAX_INT32
  {}

  lemma FailInv(s: State, t: nat, s': State)
    requires Inv(s) && t in s.threads && (Fail(s, t) == Some(s') || CloseInPlace(s, t) == Some(s'))
    ensures Inv(s')
  {}

  // Every step keeps the invariant, as written and repaired.
  lemma StepInv(repaired: bool, s: State, step: Step, s': State)
    requires Inv(s) && Apply(repaired, s, step) == Some(s')
    ensures Inv(s')
  {
    hide Inv, Lock, Unlock, Dial, Begin, WriteSome, Serve, ReadSome, Fail, CloseInPlace;
    match step
    case DoCall(t, call) => CallInv(s, t, if call.Some? then WantProduce(call.value) else WantClose);
    case DoLock(t) => LockInv(s, t, s');
    case DoUnlock(t) => UnlockInv(s, t, s');
    case DoDial(t, succeeds) => DialInv(s, t, succeeds, s');
    case DoBegin(t) => BeginInv(s, t, s');
    case DoWrite(t, k) => WriteInv(s, t, k, s');
    case DoServe(payload) => ServeInv(s, payload, s');
    case DoRead(t, k) => ReadInv(s, t, k, s');
    case DoFail(t) => FailInv(s, t, s');
    case DoCloseInPlace(t) => FailInv(s, t, s');
  }

  lemma {:induction false} RunInv(repaired: bool, s: State, steps: seq<Step>)
    requires Inv(s) && Run(repaired, s, steps).Some?
    ensures Inv(Run(repaired, s, steps).value)
    decreases |steps|
  {
    hide Inv, Apply;
    if steps != [] {
      var s' := Apply(repaired, s, steps[0]).value;
      StepInv(repaired, s, steps[0], s');
      RunInv(repaired, s', steps[1..]);
    }
  }

  // ----- Safety over all runs -----

  // The mismatch error of client.go:97.
  predicate IsMismatch(r: Result<int64>) {
    r.Err? && r.error.CorrelationMismatch?
  }

  lemma OwnReplyMatches(c: Conn, call: Call, corr: int32, result: Result<int64>, x: Exchange)
    requires OwnReply(c, call, corr, result, x)
    ensures !IsMismatch(result)
  {
    ScanOutcomes(x.reply, corr, call.topic, call.partition);
  }

  // What a run guarantees of its state.
  ghost predicate Safe(s: State) {
    // At most one thread is between Lock and Unlock.
    && (forall t, u :: t in s.threads && u in s.threads ==>
          Critical(s.threads[t]) && Critical(s.threads[u]) ==> t == u)
    // While the mutex is free no byte is in flight and no reply is outstanding.
    && (s.mu.None? && s.conn.Some? ==> Quiet(s.conn.value))
    // Who has read a reply has read the server's last answer, which answers its own
    // request, and no correlation id ever mismatches.
    && (forall t :: t in s.threads && s.threads[t].Finished? ==> SafeResult(s, s.threads[t]))
  }

  ghost predicate SafeResult(s: State, p: Phase)
    requires p.Finished?
  {
    && !IsMismatch(p.result)
    && if p.read.Some? then s.conn.Some? && OwnReply(s.conn.value, p.call, p.corr, p.result, p.read.value)
       else NothingRead(p.result)
  }

  // This holds in every run: any number of threads, any interleaving of calls, short
  // reads and writes, failures, closes and redials, any answers, and a wrapping counter.
  lemma RunSafe(repaired: bool, threads: set<nat>, steps: seq<Step>)
    requires Run(repaired, Start(threads), steps).Some?
    ensures Safe(Run(repaired, Start(threads), steps).value)
  {
    StartInv(threads);
    RunInv(repaired, Start(threads), steps);
    var s := Run(repaired, Start(threads), steps).value;
    hide Run, Quiet, OwnReply;
    forall t | t in s.threads && s.threads[t].Finished? ensures SafeResult(s, s.threads[t]) {
      var p := s.threads[t];
      if s.conn.Some? && p.read.Some? {
        OwnReplyMatches(s.conn.value, p.call, p.corr, p.result, p.read.value);
      }
    }
  }

  // ----- After an I/O failure in the code as written -----

  // The failed call keeps the mutex for ever: no other call ever gets it, and no request
  // is ever begun on the half-used connection.
  lemma {:induction false} StuckForever(s: State, t: nat, steps: seq<Step>)
    requires Inv(s) && t in s.threads && s.threads[t].Stuck?
    requires Run(false, s, steps).Some?
    ensures var s' := Run(false, s, steps).value;
            && t in s'.threads && s'.threads[t].Stuck? && s'.mu == Some(t) && s'.seqNo == s.seqNo
            && s'.threads.Keys == s.threads.Keys
            && (forall u :: u in s'.threads && u != t ==> !Critical(s'.threads[u]))
            && (s.conn.Some? ==> s'.conn.Some? && s'.conn.value.begun == s.conn.value.begun)
    decreases |steps|
  {
    hide Fits, Quiet, NeedsNoConn, Apply;
    if steps != [] {
      var s' := Apply(false, s, steps[0]).value;
      StuckStep(s, t, steps[0], s');
      StepInv(false, s, steps[0], s');
      StuckForever(s', t, steps[1..]);
    }
  }

  lemma StuckStep(s: State, t: nat, step: Step, s': State)
    requires Exclusion(s) && t in s.threads && s.threads[t].Stuck?
    requires Apply(false, s, step) == Some(s')
    ensures t in s'.threads && s'.threads[t].Stuck? && s'.seqNo == s.seqNo && s'.threads.Keys == s.threads.Keys
    ensures s.conn.Some? ==> s'.conn.Some? && s'.conn.value.begun == s.conn.value.begun
  {
    hide BodyOf, TakeFrame, CursorHeader, ScanReply;
  }

  // That state is reached: any first call of a new client may fail and get stuck.
  lemma StuckReached(threads: set<nat>, t: nat, call: Call) returns (steps: seq<Step>)
    requires t in threads
    ensures Run(false, Start(threads), steps).Some?
    ensures var s := Run(false, Start(threads), steps).value;
            Inv(s) && t in s.threads && s.threads[t].Stuck? && s.conn.Some?
  {
    var s0 := Start(threads);
    StartInv(threads);
    var s1 := Acquired(false, s0, t, call);
    var failing, s2 := FailsAt(s1, t);
    hide Inv, Apply;
    steps := Acquiring(t, call, true) + failing;
    RunTwice(false, s0, Acquiring(t, call, true), failing);
    RunInv(false, s0, steps);
  }

  // A call that holds the mutex fails: at once if its request is too large, or in a write.
  lemma FailsAt(s: State, t: nat) returns (steps: seq<Step>, s': State)
    requires t in s.threads && s.threads[t].Holding? && s.conn.Some?
    ensures Run(false, s, steps) == Some(s') && t in s'.threads && s'.threads[t].Stuck? && s'.conn.Some?
  {
    hide BodyOf, FrameWire;
    var s1 := Begin(s, t).value;
    RunOne(false, s, DoBegin(t));
    if s1.threads[t].Stuck? {
      steps, s' := [DoBegin(t)], s1;
    } else {
      RunPair(false, s, DoBegin(t), DoFail(t));
      steps, s' := [DoBegin(t), DoFail(t)], Fail(s1, t).value;
    }
  }

  // ----- The machine can move: a call completes against a server that answers -----

  // One call with the whole request in one write and the reply in two reads.  It dials if
  // it finds no connection.
  function Undisturbed(t: nat, call: Call, corr: int32, payload: seq<byte>, dials: bool): seq<Step> {
    Acquiring(t, call, dials) + Sending(t, call, corr) + Receiving(t, payload)
  }

  function Acquiring(t: nat, call: Call, dials: bool): seq<Step> {
    [DoCall(t, Some(call)), DoLock(t)] + if dials then [DoDial(t, true)] else []
  }

  function Sending(t: nat, call: Call, corr: int32): seq<Step> {
    [DoBegin(t), DoWrite(t, |FrameWire(BodyOf(call, corr))|)]
  }

  function Receiving(t: nat, payload: seq<byte>): seq<Step> {
    [DoServe(payload), DoRead(t, 4), DoRead(t, 4 + |payload|)]
  }

  lemma {:induction false} RunTwice(repaired: bool, s: State, a: seq<Step>, b: seq<Step>)
    requires Run(repaired, s, a).Some?
    ensures Run(repaired, s, a + b) == Run(repaired, Run(repaired, s, a).value, b)
    decreases |a|
  {
    hide Apply;
    if a == [] {
      assert a + b == b;
    } else {
      assert (a + b)[1..] == a[1..] + b;
      RunTwice(repaired, Apply(repaired, s, a[0]).value, a[1..], b);
    }
  }

  lemma RunOne(repaired: bool, s: State, step: Step)
    ensures Run(repaired, s, [step]) == Apply(repaired, s, step)
  {
    hide Apply;
    assert [step][1..] == [];
  }

  lemma RunPair(repaired: bool, s: State, a: Step, b: Step)
    requires Apply(repaired, s, a).Some?
    ensures Run(repaired, s, [a, b]) == Apply(repaired, Apply(repaired, s, a).value, b)
  {
    hide Apply;
    RunOne(repaired, s, a);
    RunOne(repaired, Apply(repaired, s, a).value, b);
    RunTwice(repaired, s, [a], [b]);
    assert [a] + [b] == [a, b];
  }

  // From any state with a free mutex, with or without a connection, and for any answer
  // that fits a frame, the call ends with what scanning that answer gives.
  lemma CallCompletes(repaired: bool, s: State, t: nat, call: Call, payload: seq<byte>)
    requires Inv(s) && t in s.threads && s.threads[t].Idle? && s.mu.None?
    requires |BodyOf(call, ToInt32(s.seqNo + 1))| <= MAX_INT32 && 4 + |payload| <= MAX_INT32
    ensures var corr := ToInt32(s.seqNo + 1);
            var s' := Run(repaired, s, Undisturbed(t, call, corr, payload, s.conn.None?));
            && s'.Some? && t in s'.value.threads && s'.value.threads[t].Finished?
            && s'.value.seqNo == corr && s'.value.mu == Some(t) && s'.value.conn.Some?
            && s'.value.threads[t].read == Some(Exchange(BodyOf(call, corr), Put(4, corr) + payload))
            && s'.value.threads[t].result == ScanReply(Put(4, corr) + payload, corr, call.topic, call.partition)
  {
    var corr := ToInt32(s.seqNo + 1);
    var s1 := Acquired(repaired, s, t, call);
    var s2 := Sent(repaired, s1, t, call);
    var s3 := Received(repaired, s2, t, call, corr, payload);
    hide Inv, BodyOf, FrameWire, Apply;
    RunTwice(repaired, s, Acquiring(t, call, s.conn.None?), Sending(t, call, corr));
    RunTwice(repaired, s, Acquiring(t, call, s.conn.None?) + Sending(t, call, corr), Receiving(t, payload));
  }

  // The first call on a new client, in particular, can get a reply.
  lemma FirstCallCompletes(repaired: bool, threads: set<nat>, t: nat, call: Call, payload: seq<byte>)
    requires t in threads && |BodyOf(call, 1)| <= MAX_INT32 && 4 + |payload| <= MAX_INT32
    ensures var s' := Run(repaired, Start(threads), Undisturbed(t, call, 1, payload, true));
            && s'.Some? && t in s'.value.threads && s'.value.threads[t].Finished?
            && s'.value.threads[t].read == Some(Exchange(BodyOf(call, 1), Put(4, 1) + payload))
  {
    StartInv(threads);
    hide Inv, BodyOf, Run;
    assert ToInt32(Start(threads).seqNo + 1) == 1;
    CallCompletes(repaired, Start(threads), t, call, payload);
  }

  lemma Acquired(repaired: bool, s: State, t: nat, call: Call) returns (s': State)
    requires Inv(s) && t in s.threads && s.threads[t].Idle? && s.mu.None?
    ensures Run(repaired, s, Acquiring(t, call, s.conn.None?)) == Some(s')
    ensures Inv(s') && t in s'.threads && s'.threads[t] == Holding(call) && s'.mu == Some(t)
    ensures s'.conn.Some? && s'.seqNo == s.seqNo
  {
    var s1 := Goto(s, t, WantProduce(call));
    var s2 := Goto(s1, t, Holding(call)).(mu := Some(t));
    CallInv(s, t, WantProduce(call));
    LockInv(s1, t, s2);
    RunPair(repaired, s, DoCall(t, Some(call)), DoLock(t));
    if s.conn.None? {
      s' := s2.(conn := Some(Conn([], [], [], 0)));
      DialInv(s2, t, true, s');
      RunOne(repaired, s2, DoDial(t, true));
      RunTwice(repaired, s, [DoCall(t, Some(call)), DoLock(t)], [DoDial(t, true)]);
    } else {
      s' := s2;
      assert Acquiring(t, call, false) == [DoCall(t, Some(call)), DoLock(t)];
    }
  }

  lemma Sent(repaired: bool, s: State, t: nat, call: Call) returns (s': State)
    requires Inv(s) && t in s.threads && s.threads[t] == Holding(call) && s.mu == Some(t) && s.conn.Some?
    requires |BodyOf(call, ToInt32(s.seqNo + 1))| <= MAX_INT32
    ensures var corr := ToInt32(s.seqNo + 1);
            && Run(repaired, s, Sending(t, call, corr)) == Some(s')
            && Inv(s') && t in s'.threads && s'.mu == Some(t) && s'.conn.Some? && s'.threads[t].Reading?
            && s'.threads[t].call == call && s'.threads[t].corr == corr && s'.seqNo == corr
            && Unanswered(s'.conn.value, call, corr, s'.threads[t].slot, s'.threads[t].got)
  {
    hide BodyOf, FrameWire, NeedsNoConn;
    var corr := ToInt32(s.seqNo + 1);
    var s1 := Begin(s, t).value;
    FrameNotEmpty(BodyOf(call, corr));
    s' := WriteSome(s1, t, |FrameWire(BodyOf(call, corr))|).value;
    RunPair(repaired, s, DoBegin(t), DoWrite(t, |FrameWire(BodyOf(call, corr))|));
    BeginInv(s, t, s1);
    WriteInv(s1, t, |FrameWire(BodyOf(call, corr))|, s');
  }

  lemma FrameNotEmpty(body: seq<byte>)
    ensures |FrameWire(body)| >= 4
  {}

  lemma Received(repaired: bool, s: State, t: nat, call: Call, corr: int32, payload: seq<byte>) returns (s3: State)
    requires Inv(s) && t in s.threads && s.mu == Some(t) && s.conn.Some? && s.threads[t].Reading?
    requires s.threads[t].call == call && s.threads[t].corr == corr
    requires Unanswered(s.conn.value, call, corr, s.threads[t].slot, s.threads[t].got)
    requires 4 + |payload| <= MAX_INT32 && |BodyOf(call, corr)| <= MAX_INT32
    ensures Run(repaired, s, Receiving(t, payload)) == Some(s3)
    ensures t in s3.threads && s3.threads[t].Finished?
    ensures s3.seqNo == s.seqNo && s3.mu == s.mu && s3.conn.Some?
    ensures s3.threads[t].read == Some(Exchange(BodyOf(call, corr), Put(4, corr) + payload))
    ensures s3.threads[t].result == ScanReply(Put(4, corr) + payload, corr, call.topic, call.partition)
  {
    hide Inv, BodyOf, FrameWire, ScanReply, CursorHeader, TakeFrame, Wanted, ResponseWire;
    var p, c := s.threads[t], s.conn.value;
    var reply := Put(4, corr) + payload;
    var wire := FrameWire(reply);
    ServedOwn(c, call, corr, p.slot, p.got, payload);
    ResponseIsFrame(corr, payload);
    FrameLength(reply);
    var s1 := Serve(s, payload).value;
    assert s1.conn.value.toClient == wire;
    ReplyRead(reply, [], wire[..4], wire[4..]);
    assert [] + (wire[..4] + wire[4..]) == wire && [] + wire[..4] == wire[..4];
    WantedFirst(reply);
    var s2 := ReadSome(s1, t, 4).value;
    assert s2.threads[t] == p.(got := wire[..4]) && s2.conn.value.toClient == wire[4..];
    ReplyRead(reply, wire[..4], wire[4..], []);
    assert wire[..4] + (wire[4..] + []) == wire && wire[..4] + wire[4..] == wire;
    assert wire[4..][..4 + |payload|] == wire[4..];
    s3 := ReadSome(s2, t, 4 + |payload|).value;
    RunPair(repaired, s, DoServe(payload), DoRead(t, 4));
    RunOne(repaired, s2, DoRead(t, 4 + |payload|));
    RunTwice(repaired, s, [DoServe(payload), DoRead(t, 4)], [DoRead(t, 4 + |payload|)]);
    assert Receiving(t, payload) == [DoServe(payload), DoRead(t, 4)] + [DoRead(t, 4 + |payload|)];
  }

  lemma FrameLength(body: seq<byte>)
    ensures |FrameWire(body)| == 4 + |body|
  {}

  lemma WantedFirst(reply: seq<byte>)
    requires |reply| <= MAX_INT32
    ensures |FrameWire(reply)| >= 4 && Wanted([]) == 4 && Wanted(FrameWire(reply)[..4]) == |reply|
  {
    Widths();
    GetPut(4, |reply|);
    assert FrameWire(reply)[..4] == Put(4, |reply|);
    assert Put(4, |reply|)[..4] == Put(4, |reply|);
  }

  // ----- How calls end -----

  // A call that has its result returns: the mutex is free, and connection and counter stay.
  lemma CallReturns(repaired: bool, s: State, t: nat)
    requires Inv(s) && t in s.threads && s.threads[t].Finished?
    ensures Apply(repaired, s, DoUnlock(t)) == Some(State(s.seqNo, None, s.conn, s.threads[t := Idle]))
  {}

  // A call of Close, when the mutex is free, drops the connection and changes nothing else.
  lemma CloseDrops(repaired: bool, s: State, t: nat)
    requires Inv(s) && t in s.threads && s.threads[t].Idle? && s.mu.None?
    ensures Run(repaired, s, [DoCall(t, None), DoLock(t), DoUnlock(t)])
         == Some(State(s.seqNo, None, None, s.threads))
  {
    hide Fits, Quiet;
    var s1 := Goto(s, t, WantClose);
    var s2 := Goto(s1, t, Closing).(mu := Some(t));
    var s3 := State(s.seqNo, None, None, s.threads);
    assert Goto(s2, t, Idle).threads == s.threads;
    RunPair(repaired, s, DoCall(t, None), DoLock(t));
    RunOne(repaired, s2, DoUnlock(t));
    RunTwice(repaired, s, [DoCall(t, None), DoLock(t)], [DoUnlock(t)]);
    assert [DoCall(t, None), DoLock(t)] + [DoUnlock(t)] == [DoCall(t, None), DoLock(t), DoUnlock(t)];
  }

  // A call that cannot dial reports that, and leaves no connection and the counter as it was.
  lemma DialFailure(repaired: bool, s: State, t: nat, call: Call)
    requires Inv(s) && t in s.threads && s.threads[t].Idle? && s.mu.None? && s.conn.None?
    ensures var s' := Run(repaired, s, [DoCall(t, Some(call)), DoLock(t), DoDial(t, false)]);
            && s'.Some? && s'.value.seqNo == s.seqNo && s'.value.conn.None? && s'.value.mu == Some(t)
            && t in s'.value.threads && s'.value.threads[t].Finished?
            && s'.value.threads[t].result == Err(DialFailed)
  {
    var s1 := Goto(s, t, WantProduce(call));
    var s2 := Goto(s1, t, Holding(call)).(mu := Some(t));
    RunPair(repaired, s, DoCall(t, Some(call)), DoLock(t));
    RunOne(repaired, s2, DoDial(t, false));
    RunTwice(repaired, s, [DoCall(t, Some(call)), DoLock(t)], [DoDial(t, false)]);
    assert [DoCall(t, Some(call)), DoLock(t)] + [DoDial(t, false)]
        == [DoCall(t, Some(call)), DoLock(t), DoDial(t, false)];
  }

  // Repaired, a failed call drops the connection and returns the failure.
  lemma RepairedReturns(s: State, t: nat)
    requires Inv(s) && t in s.threads && s.threads[t].Stuck?
    ensures var s' := Run(true, s, [DoCloseInPlace(t), DoUnlock(t)]);
            s' == Some(State(s.seqNo, None, None, s.threads[t := Idle]))
    ensures var s1 := Apply(true, s, DoCloseInPlace(t));
            s1.Some? && t in s1.value.threads && s1.value.threads[t].Finished?
            && s1.value.threads[t].result == Err(IOFailure)
  {
    hide Fits, Quiet;
    RunPair(true, s, DoCloseInPlace(t), DoUnlock(t));
    var s1 := CloseInPlace(s, t).value;
    assert s1.threads[t := Idle] == s.threads[t := Idle];
  }

  // ----- No deadlock but the one -----

  // The holder of the mutex can always take a step other than failing, or the server can
  // answer it, unless its own Close is stuck.
  lemma Progress(repaired: bool, s: State, t: nat) returns (step: Step)
    requires Inv(s) && s.mu == Some(t) && !s.threads[t].Stuck?
    ensures Apply(repaired, s, step).Some?
    ensures step.DoServe? || (step.t == t && !step.DoFail? && !step.DoCall?)
  {
    hide BodyOf, FrameWire, ScanReply, Wanted, Serve, WriteSome, ReadSome;
    var p := s.threads[t];
    match p
    case Holding(_) => step := if s.conn.None? then DoDial(t, true) else DoBegin(t);
    case Writing(_, _, _, unsent) =>
      step := DoWrite(t, 1);
      WritesSplit(repaired, s, t, 1);
    case Reading(_, _, _, _) =>
      if s.conn.value.toClient == [] {
        step := DoServe([]);
        AnswersAny(repaired, s, t, []);
      } else {
        step := DoRead(t, 1);
        ReadsSplit(repaired, s, t, 1);
      }
    case Finished(_, _, _, _) => step := DoUnlock(t);
    case Closing => step := DoUnlock(t);
  }

  // A request too large for a frame fails its call before anything is written.
  lemma TooLargeSticks(repaired: bool, s: State, t: nat, call: Call)
    requires Inv(s) && s.mu == Some(t) && s.threads[t] == Holding(call) && s.conn.Some?
    requires |BodyOf(call, ToInt32(s.seqNo + 1))| > MAX_INT32
    ensures var corr := ToInt32(s.seqNo + 1);
            Apply(repaired, s, DoBegin(t)) == Some(State(corr, Some(t), s.conn, s.threads[t := Stuck(call, corr)]))
  {
    hide BodyOf;
  }

  // A write may be of any size up to what is unsent, and may fail instead ...
  lemma WritesSplit(repaired: bool, s: State, t: nat, k: nat)
    requires Inv(s) && s.mu == Some(t) && s.threads[t].Writing? && 0 < k
    ensures s.threads[t].unsent != []
    ensures Apply(repaired, s, DoWrite(t, k)).Some? <==> k <= |s.threads[t].unsent|
    ensures var p := s.threads[t];
            Apply(repaired, s, DoFail(t))
            == Some(State(s.seqNo, Some(t), s.conn, s.threads[t := Stuck(p.call, p.corr)]))
  {
    hide BodyOf, FrameWire;
  }

  // ... the server may give any answer that fits a frame ...
  lemma AnswersAny(repaired: bool, s: State, t: nat, payload: seq<byte>)
    requires Inv(s) && s.mu == Some(t) && s.threads[t].Reading? && s.conn.Some? && s.conn.value.toClient == []
    ensures Apply(repaired, s, DoServe(payload)).Some? <==> 4 + |payload| <= MAX_INT32
  {
    hide BodyOf, FrameWire, TakeFrame, CursorHeader;
    var p := s.threads[t];
    assert Unanswered(s.conn.value, p.call, p.corr, p.slot, p.got);
    ServeEnabled(repaired, s, p.call, p.corr, p.slot, p.got);
  }

  // ... and a read may be of any size up to what is there, but never crosses the end of the
  // length prefix, and may fail instead.
  lemma ReadsSplit(repaired: bool, s: State, t: nat, k: nat)
    requires Inv(s) && s.mu == Some(t) && s.threads[t].Reading? && s.conn.Some? && s.conn.value.toClient != []
    requires 0 < k
    ensures Apply(repaired, s, DoRead(t, k)).Some? <==>
              k <= |s.conn.value.toClient| && (|s.threads[t].got| < 4 ==> k <= 4 - |s.threads[t].got|)
    ensures var p := s.threads[t];
            Apply(repaired, s, DoFail(t))
            == Some(State(s.seqNo, Some(t), s.conn, s.threads[t := Stuck(p.call, p.corr)]))
  {
    hide BodyOf, FrameWire, ScanReply, Wanted;
    var p, c := s.threads[t], s.conn.value;
    assert InReply(c, p.call, p.corr, p.slot, p.got);
    WantedRest(c.answers[p.slot].reply, p.got, c.toClient);
  }

  lemma ServeEnabled(repaired: bool, s: State, call: Call, corr: int32, slot: nat, got: seq<byte>)
    requires s.conn.Some? && Unanswered(s.conn.value, call, corr, slot, got) && |BodyOf(call, corr)| <= MAX_INT32
    ensures forall payload :: 4 + |payload| <= MAX_INT32 ==> Apply(repaired, s, DoServe(payload)).Some?
  {
    hide BodyOf, FrameWire, TakeFrame, CursorHeader, ResponseWire;
    forall payload | 4 + |payload| <= MAX_INT32 ensures Apply(repaired, s, DoServe(payload)).Some? {
      ServedOwn(s.conn.value, call, corr, slot, got, payload);
    }
  }

  // A reader asks for the rest of the length prefix, or for exactly the rest of the frame.
  lemma WantedRest(reply: seq<byte>, got: seq<byte>, rest: seq<byte>)
    requires |reply| <= MAX_INT32 && got + rest == FrameWire(reply)
    ensures Wanted(got) == if |got| < 4 then 4 - |got| else |rest|
  {
    Widths();
    GetPut(4, |reply|);
    var wire := got + rest;
    assert wire[..4] == Put(4, |reply|);
    if |got| >= 4 {
      assert wire[..4] == got[..4];
    }
  }

  // The payload that acknowledges one record: one block with one entry of code 0.
  function Acknowledgement(call: Call, offset: int64): seq<byte>
    requires |call.topic| <= MAX_INT16
  {
    Put(4, 1) + BlocksWire([Block(|call.topic|, call.topic, 1, [Entry(call.partition, 0, offset)])])
  }

  // Answered with an acknowledgement, the call returns the acknowledged offset.
  lemma AcknowledgedCall(repaired: bool, s: State, t: nat, call: Call, offset: int64)
    requires Inv(s) && t in s.threads && s.threads[t].Idle? && s.mu.None?
    requires |call.topic| <= MAX_INT16
    requires |BodyOf(call, ToInt32(s.seqNo + 1))| <= MAX_INT32
    ensures var payload := Acknowledgement(call, offset);
            var s' := Run(repaired, s, Undisturbed(t, call, ToInt32(s.seqNo + 1), payload, s.conn.None?));
            s'.Some? && t in s'.value.threads && s'.value.threads[t].Finished?
            && s'.value.threads[t].result == Ok(offset)
  {
    hide Inv, BodyOf, ScanReply, Run, BlockWire, Records;
    var corr := ToInt32(s.seqNo + 1);
    var e := Entry(call.partition, 0, offset);
    var b := Block(|call.topic|, call.topic, 1, [e]);
    var payload := Acknowledgement(call, offset);
    AcknowledgementLength(call, offset);
    CallCompletes(repaired, s, t, call, payload);
    ScanIsLookup(corr, 1, [b], [], call.topic, call.partition);
    assert BlocksWire([b]) + [] == BlocksWire([b]);
    assert ReplyWire(corr, 1, BlocksWire([b])) == Put(4, corr) + payload;
    OneRecord(b, e);
  }

  lemma AcknowledgementLength(call: Call, offset: int64)
    requires |call.topic| <= MAX_INT16
    ensures 4 + |Acknowledgement(call, offset)| <= MAX_INT32
  {
    var e := Entry(call.partition, 0, offset);
    var b := Block(|call.topic|, call.topic, 1, [e]);
    assert EntriesWire([e]) == EntryWire(e) + EntriesWire([]) && |EntryWire(e)| == 14;
    assert BlocksWire([b]) == BlockWire(b) + BlocksWire([]);
  }

  lemma OneRecord(b: Block, e: Entry)
    requires b.entries == [e]
    ensures Records([b]) == [Record(b.name, e)]
  {
    assert Records([b][1..]) == [];
  }
}
