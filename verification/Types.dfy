// Shared vocabulary of the Kafka Produce subset: Go's fixed-width integers, byte
// slices that may be nil, and the (value, error) pairs its functions return.
module Types {
  type byte = x: int | 0 <= x < 0x100
  type int8 = x: int | -0x80 <= x < 0x80
  type int16 = x: int | -0x8000 <= x < 0x8000
  type int32 = x: int | -0x8000_0000 <= x < 0x8000_0000
  type int64 = x: int | -0x8000_0000_0000_0000 <= x < 0x8000_0000_0000_0000
  type uint32 = x: int | 0 <= x < 0x1_0000_0000

  const MAX_INT16 := 0x7fff
  const MAX_INT32 := 0x7fff_ffff

  // Go's int16(x) and int32(x) conversions of a wider integer.
  function ToInt16(x: int): int16 {
    (x + 0x8000) % 0x1_0000 - 0x8000
  }

  function ToInt32(x: int): int32 {
    (x + 0x8000_0000) % 0x1_0000_0000 - 0x8000_0000
  }

  // A Go byte slice: nil and empty are different values.
  datatype Nullable = Nil | Slice(bytes: seq<byte>)

  // len(b) of a slice, where nil has length 0.
  function Payload(b: Nullable): seq<byte> {
    if b.Nil? then [] else b.bytes
  }

  datatype Option<+T> = None | Some(value: T)

  datatype Error =
    | EOF
    | UnexpectedEOF
    | IOFailure
    | InvalidStringLength(n: int)
    | InvalidFrameSize(n: int)
    | StringTooLong
    | FrameTooLarge
    | MessageTooShort
    | UnsupportedMagic(magic: int)
    | LengthUnderflow
    | PayloadUnderflow
    | TrailingBytes
    | CrcMismatch
    | NotConfigured
    | DialFailed
    | CorrelationMismatch(got: int, want: int)
    | ProduceError(code: int)
    | MissingFromResponse

  datatype Result<+T> = Ok(value: T) | Err(error: Error)
}
