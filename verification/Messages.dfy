// codec.go: the checksummed legacy message (magic 0 or 1).
module Messages {
  import opened Types
  import opened BigEndian
  import opened Crc32c
  import opened Streams
  import Codec

  datatype Message =
    Message(magic: int8, attributes: int8, timestamp: int64, key: Nullable, value: Nullable)

  // ----- Parsing -----

  datatype Field = Field(value: Nullable, n: nat)

  // codec.go:271 readNullableBytesAt: the slice at off and how many bytes it takes.
  function NullableAt(data: seq<byte>, off: nat): (r: Result<Field>)
    ensures r.Ok? ==> off + r.value.n <= |data|
    ensures r.Err? ==> r.error == LengthUnderflow || r.error == PayloadUnderflow
  {
    if off + 4 > |data| then Err(LengthUnderflow) else
    var n := Get(data[off..off + 4]);
    if n < 0 then Ok(Field(Nil, 4))
    else if off + 4 + n > |data| then Err(PayloadUnderflow)
    else Ok(Field(Slice(data[off + 4..off + 4 + n]), 4 + n))
  }

  // The result of DecodeMessage, check by check.
  function Decode(data: seq<byte>): Result<Message> {
    if |data| < 14 then Err(MessageTooShort) else
    var magic := Get(data[4..5]);
    if magic != 0 && magic != 1 then Err(UnsupportedMagic(magic)) else
    var timestamp := if magic == 1 then Get(data[6..14]) else 0;
    var off := if magic == 1 then 14 else 6;
    match NullableAt(data, off) case Err(e) => Err(e) case Ok(key) =>
    match NullableAt(data, off + key.n) case Err(e) => Err(e) case Ok(value) =>
    if off + key.n + value.n != |data| then Err(TrailingBytes)
    else if Put(4, Checksum(data[4..])) != data[..4] then Err(CrcMismatch)
    else
      Ranges(data);
      Ok(Message(magic, Get(data[5..6]), timestamp, key.value, value.value))
  }

  lemma Ranges(data: seq<byte>)
    requires |data| >= 14
    ensures -0x80 <= Get(data[5..6]) < 0x80
    ensures -0x8000_0000_0000_0000 <= Get(data[6..14]) < 0x8000_0000_0000_0000
  {
    Widths();
    PutGet(data[5..6]);
    PutGet(data[6..14]);
  }

  method DecodeMessage(data: seq<byte>) returns (r: Result<Message>)
    ensures r == Decode(data)
  {
    if |data| < 14 { return Err(MessageTooShort); }
    var storedCRC := GetUint32(data[0..4]);
    var magic := Get(data[4..5]);
    var attributes := Get(data[5..6]);
    var off := 6;

    var timestamp := 0;
    match magic {
      case 0 =>
      case 1 =>
        // The guard of codec.go:215 cannot fire: 14 bytes were checked for above.
        assert |data| >= off + 8;
        timestamp := Get(data[off..off + 8]);
        off := off + 8;
      case _ =>
        return Err(UnsupportedMagic(magic));
    }

    var key := ReadNullableBytesAt(data, off);
    if key.Err? { return Err(key.error); }
    off := off + key.value.n;

    var value := ReadNullableBytesAt(data, off);
    if value.Err? { return Err(value.error); }
    off := off + value.value.n;
    if off != |data| { return Err(TrailingBytes); }

    SameUint32(data[0..4], Checksum(data[4..]));
    if Checksum(data[4..]) != storedCRC { return Err(CrcMismatch); }
    Ranges(data);
    r := Ok(Message(magic, attributes, timestamp, key.value.value, value.value.value));
  }

  method ReadNullableBytesAt(data: seq<byte>, off: nat) returns (r: Result<Field>)
    ensures r == NullableAt(data, off)
  {
    if off + 4 > |data| { return Err(LengthUnderflow); }
    var n := Get(data[off..off + 4]);
    if n < 0 { return Ok(Field(Nil, 4)); }
    if off + 4 + n > |data| { return Err(PayloadUnderflow); }
    if n == 0 {
      assert data[off + 4..off + 4] == [];
      return Ok(Field(Slice([]), 4));
    }
    r := Ok(Field(Slice(data[off + 4..off + 4 + n]), 4 + n));
  }

  // ----- What a message looks like -----

  // lengthField is a length the format allows for b: any negative number says nil.
  predicate LengthFits(lengthField: int32, b: Nullable) {
    match b
    case Nil => lengthField < 0
    case Slice(bytes) => lengthField == |bytes|
  }

  function StampWire(m: Message): seq<byte> {
    if m.magic == 1 then Put(8, m.timestamp) else []
  }

  function BodyWire(m: Message, keyLength: int, valueLength: int): seq<byte> {
    Put(1, m.magic) + Put(1, m.attributes) + StampWire(m)
    + Put(4, keyLength) + Payload(m.key) + Put(4, valueLength) + Payload(m.value)
  }

  function Sealed(body: seq<byte>): seq<byte> {
    Put(4, Checksum(body)) + body
  }

  ghost predicate Layout(data: seq<byte>, m: Message, keyLength: int32, valueLength: int32) {
    && (m.magic == 0 || m.magic == 1)
    && (m.magic == 0 ==> m.timestamp == 0)
    && LengthFits(keyLength, m.key) && LengthFits(valueLength, m.value)
    && data == Sealed(BodyWire(m, keyLength, valueLength))
  }

  // Where the parts of a message lie.
  lemma Parts(crc: seq<byte>, magic: seq<byte>, attributes: seq<byte>, stamp: seq<byte>,
              kl: seq<byte>, key: seq<byte>, vl: seq<byte>, value: seq<byte>, data: seq<byte>)
    requires |crc| == |kl| == |vl| == 4 && |magic| == |attributes| == 1
    requires data == crc + (magic + attributes + stamp + kl + key + vl + value)
    ensures data[..4] == crc && data[4..5] == magic && data[5..6] == attributes
    ensures data[6..6 + |stamp|] == stamp
    ensures var off := 6 + |stamp|;
            && data[off..off + 4] == kl && data[off + 4..off + 4 + |key|] == key
            && data[off + 4 + |key|..off + 8 + |key|] == vl && data[off + 8 + |key|..] == value
  {}

  // Any byte sequence is the concatenation of consecutive parts.
  lemma Cut(data: seq<byte>, off: nat, keyEnd: nat)
    requires 6 <= off && off + 4 <= keyEnd && keyEnd + 4 <= |data|
    ensures data == data[..4] + (data[4..5] + data[5..6] + data[6..off] + data[off..off + 4]
                    + data[off + 4..keyEnd] + data[keyEnd..keyEnd + 4] + data[keyEnd + 4..])
  {}

  lemma FieldAt(data: seq<byte>, off: nat, lengthField: int32, b: Nullable)
    requires LengthFits(lengthField, b)
    requires off + 4 + |Payload(b)| <= |data|
    requires data[off..off + 4] == Put(4, lengthField)
    requires data[off + 4..off + 4 + |Payload(b)|] == Payload(b)
    ensures NullableAt(data, off) == Ok(Field(b, 4 + |Payload(b)|))
  {
    Widths();
    GetPut(4, lengthField);
  }

  lemma FieldFound(data: seq<byte>, off: nat) returns (lengthField: int32)
    requires NullableAt(data, off).Ok?
    ensures var f := NullableAt(data, off).value;
            && LengthFits(lengthField, f.value) && f.n == 4 + |Payload(f.value)|
            && data[off..off + 4] == Put(4, lengthField)
            && data[off + 4..off + f.n] == Payload(f.value)
  {
    Widths();
    PutGet(data[off..off + 4]);
    lengthField := Get(data[off..off + 4]);
  }

  // The same layout said slice by slice.
  ghost predicate Shape(data: seq<byte>, m: Message, keyLength: int32, valueLength: int32) {
    var off := 6 + |StampWire(m)|;
    var keyEnd := off + 4 + |Payload(m.key)|;
    && |data| == keyEnd + 4 + |Payload(m.value)|
    && data[..4] == Put(4, Checksum(data[4..]))
    && data[4..5] == Put(1, m.magic) && data[5..6] == Put(1, m.attributes) && data[6..off] == StampWire(m)
    && data[off..off + 4] == Put(4, keyLength) && data[off + 4..keyEnd] == Payload(m.key)
    && data[keyEnd..keyEnd + 4] == Put(4, valueLength) && data[keyEnd + 4..] == Payload(m.value)
  }

  lemma SealedShape(data: seq<byte>, m: Message, keyLength: int32, valueLength: int32)
    requires data == Sealed(BodyWire(m, keyLength, valueLength))
    ensures Shape(data, m, keyLength, valueLength)
  {
    var body := BodyWire(m, keyLength, valueLength);
    var crc := Put(4, Checksum(body));
    Parts(crc, Put(1, m.magic), Put(1, m.attributes), StampWire(m),
          Put(4, keyLength), Payload(m.key), Put(4, valueLength), Payload(m.value), data);
    assert data[4..] == body;
  }

  lemma ShapeSealed(data: seq<byte>, m: Message, keyLength: int32, valueLength: int32)
    requires Shape(data, m, keyLength, valueLength)
    ensures data == Sealed(BodyWire(m, keyLength, valueLength))
  {
    var off := 6 + |StampWire(m)|;
    Cut(data, off, off + 4 + |Payload(m.key)|);
    assert data[4..] == BodyWire(m, keyLength, valueLength);
  }

  lemma DecodeLayout(data: seq<byte>, m: Message, keyLength: int32, valueLength: int32)
    requires Layout(data, m, keyLength, valueLength)
    ensures Decode(data) == Ok(m)
  {
    SealedShape(data, m, keyLength, valueLength);
    DecodeShape(data, m, keyLength, valueLength);
  }

  lemma DecodeShape(data: seq<byte>, m: Message, keyLength: int32, valueLength: int32)
    requires (m.magic == 0 && m.timestamp == 0) || m.magic == 1
    requires LengthFits(keyLength, m.key) && LengthFits(valueLength, m.value)
    requires Shape(data, m, keyLength, valueLength)
    ensures Decode(data) == Ok(m)
  {
    hide Put, Get, Checksum, NullableAt;
    var off := 6 + |StampWire(m)|;
    Scalars(data, m);
    FieldAt(data, off, keyLength, m.key);
    FieldAt(data, off + 4 + |Payload(m.key)|, valueLength, m.value);
  }

  lemma Scalars(data: seq<byte>, m: Message)
    requires |data| >= 14 && (m.magic == 0 || m.magic == 1)
    ensures data[4..5] == Put(1, m.magic) <==> Get(data[4..5]) == m.magic
    ensures data[5..6] == Put(1, m.attributes) <==> Get(data[5..6]) == m.attributes
    ensures data[6..14] == Put(8, m.timestamp) <==> Get(data[6..14]) == m.timestamp
  {
    Widths();
    Same(data[4..5], m.magic);
    Same(data[5..6], m.attributes);
    Same(data[6..14], m.timestamp);
  }

  lemma Same(s: seq<byte>, v: int)
    requires |s| > 0 && -Half(|s|) <= v < Half(|s|)
    ensures s == Put(|s|, v) <==> Get(s) == v
  {
    PutGet(s);
    GetPut(|s|, v);
  }

  // The checks an accepted message has passed.
  lemma Checked(data: seq<byte>, m: Message) returns (key: Field, value: Field)
    requires Decode(data) == Ok(m)
    ensures (m.magic == 0 && m.timestamp == 0) || m.magic == 1
    ensures |data| >= 14 && Get(data[4..5]) == m.magic && Get(data[5..6]) == m.attributes
    ensures m.magic == 1 ==> Get(data[6..14]) == m.timestamp
    ensures key.value == m.key && value.value == m.value
    ensures var off := 6 + |StampWire(m)|;
            && NullableAt(data, off) == Ok(key) && NullableAt(data, off + key.n) == Ok(value)
            && off + key.n + value.n == |data|
    ensures data[..4] == Put(4, Checksum(data[4..]))
  {
    var off := if m.magic == 1 then 14 else 6;
    key := NullableAt(data, off).value;
    value := NullableAt(data, off + key.n).value;
  }

  lemma LayoutDecoded(data: seq<byte>) returns (keyLength: int32, valueLength: int32)
    requires Decode(data).Ok?
    ensures Layout(data, Decode(data).value, keyLength, valueLength)
  {
    var m := Decode(data).value;
    keyLength, valueLength := ShapeDecoded(data, m);
    ShapeSealed(data, m, keyLength, valueLength);
  }

  lemma ShapeDecoded(data: seq<byte>, m: Message) returns (keyLength: int32, valueLength: int32)
    requires Decode(data) == Ok(m)
    ensures (m.magic == 0 && m.timestamp == 0) || m.magic == 1
    ensures LengthFits(keyLength, m.key) && LengthFits(valueLength, m.value)
    ensures Shape(data, m, keyLength, valueLength)
  {
    var key, value := Checked(data, m);
    var off := 6 + |StampWire(m)|;
    Scalars(data, m);
    keyLength := FieldFound(data, off);
    valueLength := FieldFound(data, off + key.n);
  }

  // Exactly the well-formed byte sequences are accepted, and for exactly their message.
  lemma DecodeIffLayout(data: seq<byte>, m: Message)
    ensures Decode(data) == Ok(m) <==> exists kl, vl :: Layout(data, m, kl, vl)
  {
    if Decode(data) == Ok(m) {
      var kl, vl := LayoutDecoded(data);
    }
    forall kl, vl | Layout(data, m, kl, vl) ensures Decode(data) == Ok(m) {
      DecodeLayout(data, m, kl, vl);
    }
  }

  // The fields tile the message: header, key and value account for every byte.
  lemma DecodeTiles(data: seq<byte>)
    requires Decode(data).Ok?
    ensures var m := Decode(data).value;
            |data| == (if m.magic == 1 then 22 else 14) + |Payload(m.key)| + |Payload(m.value)|
  {
    var kl, vl := LayoutDecoded(data);
  }

  // ----- Printing -----

  // codec.go:290 appendNullableBytes
  method AppendNullableBytes(dst: seq<byte>, b: Nullable) returns (r: seq<byte>)
    ensures r == dst + Put(4, PlainLength(b)) + Payload(b)
  {
    if b.Nil? {
      AllOnes();
      return dst + [0xff, 0xff, 0xff, 0xff];
    }
    r := dst + Put(4, |b.bytes|);
    r := r + b.bytes;
  }

  lemma AllOnes()
    ensures Put(4, -1) == [0xff, 0xff, 0xff, 0xff]
  {
    assert Put(1, -1) == Put(0, -1) + [0xff] == [0xff];
    assert Put(2, -1) == [0xff, 0xff];
    assert Put(3, -1) == [0xff, 0xff, 0xff];
  }

  // The message EncodeMessage builds: magic 1, no attributes, timestamp 0.
  function Plain(key: Nullable, value: Nullable): Message {
    Message(1, 0, 0, key, value)
  }

  function PlainLength(b: Nullable): int {
    if b.Nil? then -1 else |b.bytes|
  }

  function Encoded(key: Nullable, value: Nullable): seq<byte> {
    Sealed(BodyWire(Plain(key, value), PlainLength(key), PlainLength(value)))
  }

  method EncodeMessage(key: Nullable, value: Nullable) returns (r: seq<byte>)
    ensures r == Encoded(key, value)
  {
    var body: seq<byte> := [];
    body := body + [1];
    body := body + [0];
    var ts := Put(8, 0);
    body := body + ts;
    body := AppendNullableBytes(body, key);
    body := AppendNullableBytes(body, value);

    PlainHead(ts);

    var out := new byte[4 + |body|](_ => 0);
    var crc := Put(4, Checksum(body));
    forall i | 0 <= i < 4 { out[i] := crc[i]; }
    forall i | 0 <= i < |body| { out[4 + i] := body[i]; }
    r := out[..];
    Joined(r, crc, body);
  }

  lemma PlainHead(ts: seq<byte>)
    ensures [] + [1] + [0] + ts == Put(1, 1) + Put(1, 0) + ts
  {
    assert Put(1, 1) == Put(0, 0) + [1] && Put(1, 0) == Put(0, 0) + [0];
  }

  lemma Joined(s: seq<byte>, a: seq<byte>, b: seq<byte>)
    requires |s| == |a| + |b|
    requires forall i :: 0 <= i < |a| ==> s[i] == a[i]
    requires forall i :: 0 <= i < |b| ==> s[|a| + i] == b[i]
    ensures s == a + b
  {}

  // The encoding byte by byte: the checksum of the rest, magic 1, attributes 0, timestamp
  // 0, and key and value written as WriteBytes writes them.
  lemma EncodedBytes(key: Nullable, value: Nullable)
    ensures var data := Encoded(key, value);
            && data[4..] == [1, 0, 0, 0, 0, 0, 0, 0, 0, 0] + Codec.BytesWire(key) + Codec.BytesWire(value)
            && data[..4] == Put(4, Checksum(data[4..]))
  {
    hide Checksum, Register, Put, Codec.BytesWire, Payload, PlainLength;
    FieldIsBytes(key);
    FieldIsBytes(value);
    PlainStart();
    Sum5(Put(1, 1) + Put(1, 0) + Put(8, 0), Put(4, PlainLength(key)), Payload(key),
         Put(4, PlainLength(value)), Payload(value));
    var body := BodyWire(Plain(key, value), PlainLength(key), PlainLength(value));
    assert Encoded(key, value)[4..] == body && Encoded(key, value)[..4] == Put(4, Checksum(body));
  }

  lemma Sum5(a: seq<byte>, b: seq<byte>, c: seq<byte>, d: seq<byte>, e: seq<byte>)
    ensures a + b + c + d + e == a + (b + c) + (d + e)
  {}

  lemma FieldIsBytes(b: Nullable)
    ensures Put(4, PlainLength(b)) + Payload(b) == Codec.BytesWire(b)
  {}

  lemma PlainStart()
    ensures Put(1, 1) + Put(1, 0) + Put(8, 0) == [1, 0, 0, 0, 0, 0, 0, 0, 0, 0]
  {
    PutBytes(1);
    PutBytes(0);
    PutSmall(0);
  }

  // The lengths an int32 length field can hold.
  predicate Fits(b: Nullable) {
    |Payload(b)| <= MAX_INT32
  }

  // Decoding gives back what was encoded exactly when both lengths fit their fields;
  // the uint32 conversions of codec.go:295 lose longer ones.
  lemma MessageRoundTrip(key: Nullable, value: Nullable)
    ensures Decode(Encoded(key, value)) == Ok(Message(1, 0, 0, key, value)) <==> Fits(key) && Fits(value)
  {
    hide Put, Get, BodyWire, Decode, Checksum;
    if Fits(key) && Fits(value) {
      DecodeLayout(Encoded(key, value), Plain(key, value), PlainLength(key), PlainLength(value));
    }
    if Decode(Encoded(key, value)) == Ok(Plain(key, value)) {
      var kl, vl := LayoutDecoded(Encoded(key, value));
    }
  }

  // Conversely an accepted message is the encoding of its key and value exactly when it
  // is magic 1 with zero attributes and timestamp and writes each nil as -1.
  lemma MessageCanonical(data: seq<byte>, key: Nullable, value: Nullable, kl: int32, vl: int32)
    requires Decode(data).Ok? && Layout(data, Decode(data).value, kl, vl)
    requires key == Decode(data).value.key && value == Decode(data).value.value
    ensures data == Encoded(key, value)
       <==> && Decode(data).value.magic == 1 && Decode(data).value.attributes == 0
            && Decode(data).value.timestamp == 0
            && (key.Nil? ==> kl == -1) && (value.Nil? ==> vl == -1)
  {
    hide Put, Get, BodyWire, Decode, Checksum;
    if data == Encoded(key, value) {
      MessageRoundTrip(key, value);
      LayoutUnique(data, Plain(key, value), kl, vl, PlainLength(key), PlainLength(value));
    }
  }

  // The bytes determine the two length fields.
  lemma LayoutUnique(data: seq<byte>, m: Message, kl: int32, vl: int32, kl': int32, vl': int32)
    requires Layout(data, m, kl, vl) && Layout(data, m, kl', vl')
    ensures kl == kl' && vl == vl'
  {
    LengthFields(data, m, kl, vl);
    LengthFields(data, m, kl', vl');
  }

  lemma LengthFields(data: seq<byte>, m: Message, kl: int32, vl: int32)
    requires Layout(data, m, kl, vl)
    ensures var off := 6 + |StampWire(m)|;
            var keyEnd := off + 4 + |Payload(m.key)|;
            && keyEnd + 4 <= |data|
            && Get(data[off..off + 4]) == kl && Get(data[keyEnd..keyEnd + 4]) == vl
  {
    SealedShape(data, m, kl, vl);
    Widths();
    GetPut(4, kl);
    GetPut(4, vl);
  }

  // ----- Parsing against the stream codec -----

  // A field is found exactly where ReadBytes would read it, and takes as many bytes.
  lemma NullableIsBytes(data: seq<byte>, off: nat)
    requires off <= |data|
    ensures var f := NullableAt(data, off);
            var p := Codec.TakeBytes(data[off..]);
            if f.Ok? then f.value.n >= 4 && p == Got(f.value.value, data[off + f.value.n..]) else p.Bad?
  {
    if off + 4 <= |data| {
      assert data[off..][..4] == data[off..off + 4];
      var n := Get(data[off..off + 4]);
      if n < 0 {
        Codec.TakeBytesIff(data[off..], Nil, data[off + 4..]);
        assert data[off..][4..] == data[off + 4..];
      } else if off + 4 + n <= |data| {
        Codec.TakeBytesIff(data[off..], Slice(data[off + 4..off + 4 + n]), data[off + 4 + n..]);
        assert data[off..][4..n + 4] == data[off + 4..off + 4 + n];
        assert data[off..][n + 4..] == data[off + 4 + n..];
      }
    }
  }

  // A message is accepted as m exactly if its bytes, read at fixed places and then with
  // ReadBytes twice, are the fields of m with nothing left over, and the first four are
  // the checksum of the others.
  lemma DecodeIffFields(data: seq<byte>, m: Message)
    ensures Decode(data) == Ok(m) <==>
              && |data| >= 14
              && m.magic == Get(data[4..5]) && (m.magic == 0 || m.magic == 1)
              && m.attributes == Get(data[5..6])
              && m.timestamp == (if m.magic == 1 then Get(data[6..14]) else 0)
              && data[..4] == Put(4, Checksum(data[4..]))
              && (var key := Codec.TakeBytes(data[(if m.magic == 1 then 14 else 6)..]);
                  key.Got? && key.value == m.key && Codec.TakeBytes(key.rest) == Got(m.value, []))
  {
    hide NullableAt, Codec.TakeBytes, Checksum, Register, Put, Get;
    if |data| >= 14 {
      var off := if Get(data[4..5]) == 1 then 14 else 6;
      NullableIsBytes(data, off);
      var key := NullableAt(data, off);
      if key.Ok? {
        var keyEnd := off + key.value.n;
        NullableIsBytes(data, keyEnd);
        var value := NullableAt(data, keyEnd);
        if value.Ok? {
          assert data[keyEnd + value.value.n..] == [] <==> keyEnd + value.value.n == |data|;
        }
      }
    }
  }

  // What the other errors mean.  Those not listed are an underflow of key or value.
  lemma DecodeErrors(data: seq<byte>, magic: int)
    ensures Decode(data) == Err(MessageTooShort) <==> |data| < 14
    ensures Decode(data) == Err(UnsupportedMagic(magic)) <==>
              |data| >= 14 && magic == Get(data[4..5]) && magic != 0 && magic != 1
    ensures Decode(data) == Err(TrailingBytes) <==>
              && |data| >= 14 && (Get(data[4..5]) == 0 || Get(data[4..5]) == 1)
              && (var key := Codec.TakeBytes(data[(if Get(data[4..5]) == 1 then 14 else 6)..]);
                  key.Got? && Codec.TakeBytes(key.rest).Got? && Codec.TakeBytes(key.rest).rest != [])
  {
    hide NullableAt, Codec.TakeBytes, Checksum, Register, Put, Get;
    if |data| >= 14 {
      var off := if Get(data[4..5]) == 1 then 14 else 6;
      NullableIsBytes(data, off);
      var key := NullableAt(data, off);
      if key.Ok? {
        NullableIsBytes(data, off + key.value.n);
      }
    }
  }

  // Which underflow a field reports.
  lemma NullableErrors(data: seq<byte>, off: nat)
    ensures NullableAt(data, off) == Err(LengthUnderflow) <==> off + 4 > |data|
    ensures NullableAt(data, off) == Err(PayloadUnderflow) <==>
              off + 4 <= |data| && Get(data[off..off + 4]) > |data| - off - 4
  {}

  // The checksum error means exactly: the stored checksum is wrong, and nothing else is.
  lemma CrcMismatchIff(data: seq<byte>)
    ensures Decode(data) == Err(CrcMismatch) <==>
              |data| >= 4 && data[..4] != Put(4, Checksum(data[4..])) && Decode(Sealed(data[4..])).Ok?
  {
    hide Put, Get, Checksum, NullableAt, Register;
    if |data| >= 14 {
      var fixed := Sealed(data[4..]);
      assert fixed[4..] == data[4..] && fixed[..4] == Put(4, Checksum(data[4..]));
      SameSlice(data, fixed, 4, 5);
      SameSlice(data, fixed, 5, 6);
      SameSlice(data, fixed, 6, 14);
      var off := if Get(data[4..5]) == 1 then 14 else 6;
      SameField(data, fixed, off);
      if NullableAt(data, off).Ok? {
        SameField(data, fixed, off + NullableAt(data, off).value.n);
      }
    }
  }

  lemma SameSlice(a: seq<byte>, b: seq<byte>, i: nat, j: nat)
    requires |a| == |b| && 4 <= i <= j <= |a| && a[4..] == b[4..]
    ensures a[i..j] == b[i..j]
  {
    forall k | i <= k < j ensures a[k] == b[k] {
      assert a[k] == a[4..][k - 4] && b[k] == b[4..][k - 4];
    }
  }

  // A field lies behind the checksum, so it does not depend on it.
  lemma SameField(a: seq<byte>, b: seq<byte>, off: nat)
    requires |a| == |b| >= 4 && a[4..] == b[4..] && off >= 4
    ensures NullableAt(a, off) == NullableAt(b, off)
  {
    hide Get;
    if off + 4 <= |a| {
      SameSlice(a, b, off, off + 4);
      var n := Get(a[off..off + 4]);
      if 0 <= n && off + 4 + n <= |a| {
        SameSlice(a, b, off + 4, off + 4 + n);
      }
    }
  }

  // ----- Error detection -----

  // y is x with its stored checksum damaged, or with its checksummed part hit by one
  // burst of at most 32 bits.
  ghost predicate Damaged(x: seq<byte>, y: seq<byte>) {
    && |x| == |y| >= 4
    && if x[4..] == y[4..] then x[..4] != y[..4]
       else x[..4] == y[..4] && exists p: nat, q: nat :: q - p <= 32 && Burst(x[4..], y[4..], p, q)
  }

  lemma DamageRejected(x: seq<byte>, y: seq<byte>)
    requires Decode(x).Ok? && Damaged(x, y)
    ensures Decode(y).Err?
  {
    if x[..4] == y[..4] {
      var p: nat, q: nat :| q - p <= 32 && Burst(x[4..], y[4..], p, q);
      BurstDetected(x[4..], y[4..], p, q);
      SameUint32(x[..4], Checksum(x[4..]));
      SameUint32(x[..4], Checksum(y[4..]));
    }
  }

  // In particular, replacing at most four consecutive bytes on either side of the
  // checksum boundary, at any index of a message of any length, is detected.
  lemma WindowRejected(pre: seq<byte>, w: seq<byte>, w': seq<byte>, post: seq<byte>)
    requires Decode(pre + w + post).Ok?
    requires |w| == |w'| <= 4 && w != w'
    requires |pre| >= 4 || |pre| + |w| <= 4
    ensures Decode(pre + w' + post).Err?
  {
    assert |pre + w + post| >= 14;
    hide Decode, Damaged;
    if |pre| >= 4 {
      BodyWindowDamages(pre, w, w', post);
    } else {
      ChecksumWindowDamages(pre, w, w', post);
    }
    DamageRejected(pre + w + post, pre + w' + post);
  }

  lemma BodyWindowDamages(pre: seq<byte>, w: seq<byte>, w': seq<byte>, post: seq<byte>)
    requires |w| == |w'| <= 4 && w != w' && |pre| >= 4
    ensures Damaged(pre + w + post, pre + w' + post)
  {
    hide Burst, Bits;
    var x, y := pre + w + post, pre + w' + post;
    WindowIsBurst(pre[4..], w, w', post);
    assert x[4..] == pre[4..] + w + post && y[4..] == pre[4..] + w' + post;
    var p: nat, q: nat := 8 * |pre[4..]|, 8 * |pre[4..]| + 8 * |w|;
    assert q - p <= 32 && Burst(x[4..], y[4..], p, q);
  }

  lemma ChecksumWindowDamages(pre: seq<byte>, w: seq<byte>, w': seq<byte>, post: seq<byte>)
    requires |w| == |w'| && w != w' && |pre| + |w| <= 4 && |pre + w + post| >= 4
    ensures Damaged(pre + w + post, pre + w' + post)
  {
    var x, y := pre + w + post, pre + w' + post;
    assert x[4..] == post[4 - |pre| - |w|..] == y[4..];
    var k :| 0 <= k < |w| && w[k] != w'[k];
    assert x[|pre| + k] == w[k] && y[|pre| + k] == w'[k];
    assert x[..4][|pre| + k] != y[..4][|pre| + k];
  }

  // Changing any single byte is detected.
  lemma ByteRejected(data: seq<byte>, i: nat, b: byte)
    requires Decode(data).Ok? && i < |data| && data[i] != b
    ensures Decode(data[i := b]).Err?
  {
    hide Decode;
    assert data == data[..i] + [data[i]] + data[i + 1..];
    assert data[i := b] == data[..i] + [b] + data[i + 1..];
    WindowRejected(data[..i], [data[i]], [b], data[i + 1..]);
  }
}
