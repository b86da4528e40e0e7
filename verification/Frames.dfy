// Streams of length-prefixed frames: what repeated ReadFrame makes of the bytes that
// repeated WriteFrame produced, whole or cut short.  First over byte sequences, then over
// streams with short writes, short reads and failures.
module Frames {
  import opened Types
  import opened Streams
  import opened Codec

  function FramesWire(ps: seq<seq<byte>>): seq<byte> {
    if ps == [] then [] else FrameWire(ps[0]) + FramesWire(ps[1..])
  }

  predicate AllFit(ps: seq<seq<byte>>) {
    forall p :: p in ps ==> |p| <= MAX_INT32
  }

  // The frames ReadFrame returns one after the other, and the error that stops it.
  datatype FrameRun = FrameRun(frames: seq<seq<byte>>, error: Error)

  function TakeFrames(s: seq<byte>): FrameRun
    decreases |s|
  {
    match TakeFrame(s)
    case Bad(e) => FrameRun([], e)
    case Got(p, rest) =>
      var run := TakeFrames(rest);
      FrameRun([p] + run.frames, run.error)
  }

  lemma EmptyStream()
    ensures TakeFrames([]) == FrameRun([], EOF)
  {}

  lemma FrameThenRest(p: seq<byte>, rest: seq<byte>)
    requires |p| <= MAX_INT32
    ensures var run := TakeFrames(rest);
            TakeFrames(FrameWire(p) + rest) == FrameRun([p] + run.frames, run.error)
  {
    hide FrameWire, TakeFrame;
    TakeFrameWire(p, rest);
  }

  // How many of the frames lie wholly within the first cut bytes.
  function WholeFrames(ps: seq<seq<byte>>, cut: nat): (k: nat)
    ensures k <= |ps|
    ensures |FramesWire(ps[..k])| <= cut
    ensures k < |ps| ==> cut < |FramesWire(ps[..k])| + |FrameWire(ps[k])|
  {
    if ps == [] || cut < |FrameWire(ps[0])| then 0
    else
      var k := 1 + WholeFrames(ps[1..], cut - |FrameWire(ps[0])|);
      assert ps[..k][1..] == ps[1..][..k - 1];
      k
  }

  // The error a reader gets that finds `left` bytes of a frame and then the end.
  function EndError(left: nat): Error {
    if left == 0 || left == 4 then EOF else UnexpectedEOF
  }

  // A stream cut anywhere yields exactly the frames before the cut and then an error,
  // never a wrong or partial frame.  The error is a plain EOF when the cut is at a frame
  // boundary, but also when it falls right behind the length prefix of a non-empty frame:
  // ReadFrame's caller cannot tell the two apart.
  lemma CutStream(ps: seq<seq<byte>>, cut: nat)
    requires AllFit(ps) && cut <= |FramesWire(ps)|
    ensures var k := WholeFrames(ps, cut);
            TakeFrames(FramesWire(ps)[..cut])
            == FrameRun(ps[..k], EndError(cut - |FramesWire(ps[..k])|))
  {
    CutRunTaken(ps, cut);
    CutRunFrames(ps, cut);
  }

  // The same run, computed on the list of payloads.
  function CutRun(ps: seq<seq<byte>>, cut: nat): FrameRun {
    if ps == [] || cut < |FrameWire(ps[0])| then FrameRun([], EndError(cut))
    else
      var run := CutRun(ps[1..], cut - |FrameWire(ps[0])|);
      FrameRun([ps[0]] + run.frames, run.error)
  }

  lemma {:induction false} CutRunTaken(ps: seq<seq<byte>>, cut: nat)
    requires AllFit(ps) && cut <= |FramesWire(ps)|
    ensures TakeFrames(FramesWire(ps)[..cut]) == CutRun(ps, cut)
  {
    hide FrameWire, TakeFrame;
    var s := FramesWire(ps)[..cut];
    if ps == [] {
      assert s == [];
      EmptyStream();
    } else if cut < |FrameWire(ps[0])| {
      assert s == FrameWire(ps[0])[..cut];
      PartialFrame(ps[0], cut);
    } else {
      var cut' := cut - |FrameWire(ps[0])|;
      var rest := FramesWire(ps[1..])[..cut'];
      assert s == FrameWire(ps[0]) + rest;
      FrameThenRest(ps[0], rest);
      CutRunTaken(ps[1..], cut');
    }
  }

  lemma {:induction false} CutRunFrames(ps: seq<seq<byte>>, cut: nat)
    requires cut <= |FramesWire(ps)|
    ensures var k := WholeFrames(ps, cut);
            CutRun(ps, cut) == FrameRun(ps[..k], EndError(cut - |FramesWire(ps[..k])|))
  {
    hide FrameWire, TakeFrame;
    if WholeFrames(ps, cut) > 0 {
      var cut' := cut - |FrameWire(ps[0])|;
      var k := WholeFrames(ps[1..], cut');
      CutRunFrames(ps[1..], cut');
      FramesHead(ps[0], ps[1..][..k]);
      assert ps[..k + 1] == [ps[0]] + ps[1..][..k];
    }
  }

  lemma FramesHead(p: seq<byte>, ps: seq<seq<byte>>)
    ensures FramesWire([p] + ps) == FrameWire(p) + FramesWire(ps)
  {
    hide FrameWire;
    assert ([p] + ps)[1..] == ps;
  }

  lemma PartialFrame(p: seq<byte>, cut: nat)
    requires |p| <= MAX_INT32 && cut < |FrameWire(p)|
    ensures TakeFrame(FrameWire(p)[..cut]) == Bad(EndError(cut))
  {
    var s := FrameWire(p)[..cut];
    if cut >= 4 {
      TakeFrameWire(p, []);
      assert FrameWire(p) + [] == FrameWire(p);
      assert s[..4] == FrameWire(p)[..4];
    }
  }

  // An uncut stream yields the whole list.
  lemma {:induction false} WholeStream(ps: seq<seq<byte>>)
    requires AllFit(ps)
    ensures TakeFrames(FramesWire(ps)) == FrameRun(ps, EOF)
  {
    hide FrameWire, TakeFrame;
    if ps == [] {
      EmptyStream();
    } else {
      FrameThenRest(ps[0], FramesWire(ps[1..]));
      WholeStream(ps[1..]);
    }
  }

  lemma {:induction false} FramesAppend(ps: seq<seq<byte>>, qs: seq<seq<byte>>)
    ensures FramesWire(ps + qs) == FramesWire(ps) + FramesWire(qs)
  {
    hide FrameWire, TakeFrame;
    if ps == [] {
      assert ps + qs == qs;
    } else {
      assert (ps + qs)[1..] == ps[1..] + qs;
      FramesAppend(ps[1..], qs);
    }
  }

  // ----- WriteFrame and ReadFrame, called over and over -----

  // A caller that writes payloads one after the other until an error stops it.
  method WriteFrames(w: Stream, ps: seq<seq<byte>>) returns (err: Option<Error>)
    modifies w`output, w`faults
    ensures AllFit(ps) ==> w.Accepted(old(w.output), old(w.faults), FramesWire(ps), err)
    ensures !AllFit(ps) ==> err.Some? && old(w.output) <= w.output
  {
    hide FrameWire, FramesWire;
    ghost var out0 := w.output;
    assert FramesWire(ps[..0]) == [] by { NothingWritten(); }
    for i := 0 to |ps|
      invariant AllFit(ps[..i])
      invariant w.output == out0 + FramesWire(ps[..i]) && w.faults == old(w.faults)
    {
      WrittenSoFar(ps, i);
      err := WriteFrame(w, ps[i]);
      if err.Some? {
        assert ps[i] in ps;
        return;
      }
    }
    assert ps[..|ps|] == ps;
    err := None;
  }

  lemma NothingWritten()
    ensures FramesWire([]) == []
  {}

  // The frames before i, and the one at i, lead the whole output.
  lemma WrittenSoFar(ps: seq<seq<byte>>, i: nat)
    requires i < |ps|
    ensures FramesWire(ps[..i + 1]) == FramesWire(ps[..i]) + FrameWire(ps[i])
    ensures FramesWire(ps[..i + 1]) <= FramesWire(ps)
    ensures AllFit(ps[..i]) && |ps[i]| <= MAX_INT32 ==> AllFit(ps[..i + 1])
  {
    hide FrameWire;
    FramesAppend(ps[..i], [ps[i]]);
    assert FramesWire([ps[i]]) == FrameWire(ps[i]) + FramesWire([]);
    assert ps[..i + 1] == ps[..i] + [ps[i]];
    FramesAppend(ps[..i + 1], ps[i + 1..]);
    assert ps == ps[..i + 1] + ps[i + 1..];
  }

  // A caller that reads frames until an error stops it.  It never gets a wrong frame; the
  // whole run is TakeFrames unless a Read failed.
  method ReadFrames(r: Stream) returns (frames: seq<seq<byte>>, err: Error)
    modifies r`input, r`received, r`faults
    ensures old(r.faults) <= r.faults && (r.reliable ==> r.faults == old(r.faults))
    ensures frames <= TakeFrames(old(r.input)).frames
    ensures r.faults == old(r.faults) ==> FrameRun(frames, err) == TakeFrames(old(r.input))
  {
    hide TakeFrame;
    ghost var run := TakeFrames(r.input);
    frames := [];
    while true
      invariant r.faults == old(r.faults)
      invariant run == FrameRun(frames + TakeFrames(r.input).frames, TakeFrames(r.input).error)
      decreases |r.input|
    {
      ghost var s := r.input;
      var p := ReadFrame(r);
      if p.Err? { return frames, p.error; }
      FrameShrinks(s);
      assert frames + ([p.value] + TakeFrames(r.input).frames) == (frames + [p.value]) + TakeFrames(r.input).frames;
      frames := frames + [p.value];
    }
  }

  lemma FrameShrinks(s: seq<byte>)
    ensures TakeFrame(s).Got? ==> |TakeFrame(s).rest| < |s|
  {}

  // Payloads written to one stream, and whatever of that output reaches a reader read back:
  // all of it or a part, over any short writes and short reads.  The reader gets exactly
  // the payloads whose frames reached it whole, in order, and then an error; if its own
  // connection fails it gets the first few of them.
  method Transfer(ps: seq<seq<byte>>, w: Stream, reached: nat, reliable: bool)
    returns (frames: seq<seq<byte>>, err: Error, ghost cut: nat, ghost faults: nat)
    requires AllFit(ps) && w.output == []
    modifies w`output, w`faults
    ensures w.output <= FramesWire(ps) && (w.faults == old(w.faults) ==> w.output == FramesWire(ps))
    ensures cut == (if reached < |w.output| then reached else |w.output|)
    ensures frames <= ps[..WholeFrames(ps, cut)]
    ensures faults == 0 ==>
              var k := WholeFrames(ps, cut);
              FrameRun(frames, err) == FrameRun(ps[..k], EndError(cut - |FramesWire(ps[..k])|))
    ensures reliable ==> faults == 0
  {
    hide FramesWire, TakeFrames, EndError, WholeFrames;
    var werr := WriteFrames(w, ps);
    var n := if reached < |w.output| then reached else |w.output|;
    var r := new Stream(w.output[..n], reliable);
    frames, err := ReadFrames(r);
    cut, faults := n, r.faults;
    CutStream(ps, cut);
    assert FramesWire(ps)[..cut] == w.output[..n];
  }

  // s is a sequence of n whole frames.
  ghost predicate IsFrames(s: seq<byte>, n: nat) {
    exists ps :: |ps| == n && AllFit(ps) && s == FramesWire(ps)
  }

  lemma NoFrames()
    ensures IsFrames([], 0)
  {
    assert FramesWire([]) == [];
  }

  lemma OneMoreFrame(s: seq<byte>, n: nat, p: seq<byte>)
    requires IsFrames(s, n) && |p| <= MAX_INT32
    ensures IsFrames(s + FrameWire(p), n + 1)
  {
    hide FrameWire, TakeFrame;
    var ps :| |ps| == n && AllFit(ps) && s == FramesWire(ps);
    FramesAppend(ps, [p]);
    assert FramesWire([p]) == FrameWire(p) + FramesWire([]);
    assert |ps + [p]| == n + 1 && AllFit(ps + [p]);
  }
}
