// The io.Reader, io.Writer and net.Conn the code is handed.  A stream is a pair of byte
// sequences; how many bytes one Read or Write moves is not determined, and on a stream
// that is not reliable any call may fail.  Failures are counted, so that an error can be
// traced to a call that failed.
module Streams {
  import opened Types

  // What reading a value off the front of a byte sequence gives.
  datatype Parsed<+T> = Got(value: T, rest: seq<byte>) | Bad(error: Error)

  // io.ReadFull of n bytes from a stream that delivers exactly s and then ends.
  function Take(n: nat, s: seq<byte>): (r: Parsed<seq<byte>>)
    ensures r.Got? <==> n <= |s|
    ensures r.Got? ==> |r.value| == n && s == r.value + r.rest
  {
    if n <= |s| then Got(s[..n], s[n..])
    else Bad(if s == [] then EOF else UnexpectedEOF)
  }

  class Stream {
    const reliable: bool
    var input: seq<byte>            // still to be delivered by Read
    ghost var received: seq<byte>   // delivered so far
    var output: seq<byte>           // accepted by Write so far
    ghost var faults: nat           // calls that failed: a Write with an error, or a Read that
                                    // stopped short with an error other than the end of input
    var closed: bool
    ghost var closeErr: Option<Error>

    // A stream that will deliver the given bytes.
    constructor (input: seq<byte>, reliable: bool)
      ensures this.input == input && this.reliable == reliable && !closed
      ensures received == output == [] && faults == 0
    {
      this.input := input;
      this.reliable := reliable;
      this.received, this.output, this.faults := [], [], 0;
      this.closed, this.closeErr := false, None;
    }

    // io.Reader: some bytes, an error, or both.
    method Read(n: nat) returns (chunk: seq<byte>, err: Option<Error>)
      requires n > 0
      modifies this`input, this`received, this`faults
      ensures |chunk| <= n
      ensures old(input) == chunk + input && received == old(received) + chunk
      ensures chunk == [] ==> err.Some?
      ensures faults == old(faults) + (if StoppedShort(|chunk| < n, err, input) then 1 else 0)
      ensures reliable ==> faults == old(faults)
    {
      var k: nat :| k <= n && k <= |input|;
      if k == 0 && reliable && input != [] { k := 1; }
      chunk, input := input[..k], input[k..];
      received := received + chunk;
      err := None;
      if input == [] {
        var atEnd: bool := *;
        if atEnd || chunk == [] { err := Some(EOF); }
      }
      var fails: bool := *;
      if !reliable && (fails || chunk == []) {
        var e: Error := *;
        err := Some(e);
      }
      if StoppedShort(|chunk| < n, err, input) { faults := faults + 1; }
    }

    // A Read that returned fewer bytes than asked for failed if its error is not the end
    // of the input.
    static ghost predicate StoppedShort(short: bool, err: Option<Error>, input: seq<byte>) {
      short && err.Some? && !(err.value == EOF && input == [])
    }

    // io.Writer: accepts a prefix of b; without an error it makes progress.
    method Write(b: seq<byte>) returns (n: nat, err: Option<Error>)
      requires b != []
      modifies this`output, this`faults
      ensures n <= |b| && output == old(output) + b[..n]
      ensures err.None? ==> n > 0
      ensures faults == old(faults) + (if err.Some? then 1 else 0)
      ensures reliable ==> err.None?
    {
      n :| n <= |b|;
      if n == 0 && reliable { n := |b|; }
      output := output + b[..n];
      var fails: bool := *;
      err := if !reliable && (fails || n == 0) then Some(IOFailure) else None;
      if err.Some? { faults := faults + 1; }
    }

    // net.Conn.Close
    method Close() returns (err: Option<Error>)
      modifies this`closed, this`closeErr
      ensures closed && closeErr == err
    {
      closed := true;
      var fails: bool := *;
      err := if fails then Some(IOFailure) else None;
      closeErr := err;
    }

    // r reports reading a value that `expected` says starts the stream: a success is that
    // value with exactly its bytes consumed and no call failed; an error is the expected
    // one unless a call failed, and a call that failed gives an error.
    ghost predicate Delivered<T>(in0: seq<byte>, got0: seq<byte>, faults0: nat, expected: Parsed<T>, r: Result<T>)
      reads this
    {
      && got0 <= received && received + input == got0 + in0
      && (r.Ok? ==> expected == Got(r.value, input) && faults == faults0)
      && (r.Err? && faults == faults0 ==> expected == Bad(r.error))
      && faults0 <= faults && (reliable ==> faults == faults0)
    }

    // err reports writing the bytes of `wire`: all of them, or, exactly if a call failed,
    // a prefix and an error.
    ghost predicate Accepted(out0: seq<byte>, faults0: nat, wire: seq<byte>, err: Option<Error>)
      reads this
    {
      && out0 <= output <= out0 + wire
      && (err.None? ==> output == out0 + wire)
      && faults0 <= faults && (err.Some? <==> faults > faults0)
      && (reliable ==> faults == faults0)
    }

    // io.ReadFull: reads until n bytes are in or an error stops it.
    method ReadFull(n: nat) returns (r: Result<seq<byte>>)
      modifies this`input, this`received, this`faults
      ensures Delivered(old(input), old(received), old(faults), Take(n, old(input)), r)
    {
      var buf: seq<byte> := [];
      var err: Option<Error> := None;
      while |buf| < n && err.None?
        invariant |buf| <= n
        invariant old(input) == buf + input && received == old(received) + buf
        invariant faults >= old(faults) && (reliable ==> faults == old(faults))
        invariant |buf| == n || err.None? ==> faults == old(faults)
        invariant |buf| < n && err.Some? && faults == old(faults) ==> err.value == EOF && input == []
        decreases n - |buf|, err.None?
      {
        var chunk;
        chunk, err := Read(n - |buf|);
        assert old(input) == (buf + chunk) + input;
        assert received == old(received) + (buf + chunk);
        buf := buf + chunk;
      }
      if |buf| == n {
        r := Ok(buf);
      } else if |buf| > 0 && err.value == EOF {
        r := Err(UnexpectedEOF);
      } else {
        r := Err(err.value);
      }
    }

    // codec.go:300 writeFull
    method WriteFull(b: seq<byte>) returns (err: Option<Error>)
      modifies this`output, this`faults
      ensures Accepted(old(output), old(faults), b, err)
    {
      var b' := b;
      while |b'| > 0
        invariant |b'| <= |b| && b' == b[|b| - |b'|..]
        invariant output == old(output) + b[..|b| - |b'|]
        invariant faults == old(faults)
      {
        var n;
        n, err := Write(b');
        if err.Some? {
          return;
        }
        b' := b'[n..];
      }
      err := None;
    }
  }
}
