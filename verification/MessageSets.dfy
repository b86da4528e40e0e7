// wire.go: message sets.  decodeMessageSetV1 does not guard a negative message size, so
// one of its outcomes is a slice-bounds panic.
module MessageSets {
  import opened Types
  import opened BigEndian
  import opened Messages
  import opened Wire
  import Codec

  // ----- One entry -----

  datatype SetEntry = SetEntry(offset: int64, message: seq<byte>)

  // What the loop body of decodeMessageSetV1 finds at the cursor before it decodes.
  datatype Head = Entry(entry: SetEntry, rest: seq<byte>) | Short(error: Error) | NegativeSize

  function NextEntry(s: seq<byte>): (h: Head)
    ensures h.Entry? ==> |h.rest| < |s|
  {
    var c1 := CursorInt64(s);
    match c1.res case Err(e) => Short(e) case Ok(offset) =>
    var c2 := CursorInt32(c1.rest);
    match c2.res case Err(e) => Short(e) case Ok(size) =>
    if size > |c2.rest| then Short(UnexpectedEOF)
    else if size < 0 then NegativeSize
    else Entry(SetEntry(offset, c2.rest[..size]), c2.rest[size..])
  }

  function EntryWire(e: SetEntry): seq<byte> {
    Put(8, e.offset) + Put(4, |e.message|) + e.message
  }

  lemma NextEntryWire(e: SetEntry, rest: seq<byte>)
    requires |e.message| <= MAX_INT32
    ensures NextEntry(EntryWire(e) + rest) == Entry(e, rest)
  {
    Widths();
    var s1 := Put(4, |e.message|) + (e.message + rest);
    assert EntryWire(e) + rest == Put(8, e.offset) + s1;
    CursorPut(8, e.offset, s1);
    CursorPut(4, |e.message|, e.message + rest);
    assert (e.message + rest)[..|e.message|] == e.message && (e.message + rest)[|e.message|..] == rest;
  }

  lemma NextEntryFound(s: seq<byte>)
    requires NextEntry(s).Entry?
    ensures var e := NextEntry(s).entry;
            s == EntryWire(e) + NextEntry(s).rest && |e.message| <= MAX_INT32
  {
    var e, rest := NextEntry(s).entry, NextEntry(s).rest;
    PutGet(s[..8]);
    PutGet(s[8..][..4]);
    assert s == s[..8] + s[8..][..4] + e.message + rest;
  }

  // A negative size field behind twelve bytes of entry header.
  predicate NegativeSizeAt(s: seq<byte>) {
    |s| >= 12 && Get(s[8..12]) < 0
  }

  lemma NextEntryNegative(s: seq<byte>)
    ensures NextEntry(s).NegativeSize? <==> NegativeSizeAt(s)
  {
    if |s| >= 12 {
      assert s[8..][..4] == s[8..12];
    }
  }

  // Where the parts of an entry lie: one is found exactly if its size field is not negative
  // and no larger than what follows it.
  lemma EntryAt(s: seq<byte>)
    ensures NextEntry(s).Entry? <==> |s| >= 12 && 0 <= Get(s[8..12]) <= |s| - 12
    ensures NextEntry(s).Short? <==> |s| < 12 || Get(s[8..12]) > |s| - 12
    ensures NextEntry(s).Short? ==> NextEntry(s).error == UnexpectedEOF
    ensures NextEntry(s).Entry? ==>
              && NextEntry(s).entry.offset == Get(s[..8])
              && NextEntry(s).entry.message == s[12..12 + Get(s[8..12])]
              && NextEntry(s).rest == s[12 + Get(s[8..12])..]
  {
    if |s| >= 12 {
      assert s[8..][..4] == s[8..12] && s[8..][4..] == s[12..];
      var n := Get(s[8..12]);
      if 0 <= n <= |s| - 12 {
        assert s[12..][..n] == s[12..12 + n] && s[12..][n..] == s[12 + n..];
      }
    }
  }

  // ----- The loop, for any way of getting a value out of a message -----

  datatype SetResult = Values(values: seq<Nullable>) | Failed(error: Error) | Panicked

  type Decoder = seq<byte> -> Result<Nullable>

  // The outcome of a run that had already collected vs when r is the outcome of the rest.
  function Extend(vs: seq<Nullable>, r: SetResult): SetResult {
    if r.Values? then Values(vs + r.values) else r
  }

  function Walk(decode: Decoder, s: seq<byte>): SetResult
    decreases |s|
  {
    if s == [] then Values([]) else
    match NextEntry(s)
    case Short(e) => Failed(e)
    case NegativeSize => Panicked
    case Entry(entry, rest) =>
      var v := decode(entry.message);
      if v.Err? then Failed(v.error) else Extend([v.value], Walk(decode, rest))
  }

  lemma ExtendEnds(vs: seq<Nullable>, r: SetResult)
    ensures r == Values([]) ==> Extend(vs, r) == Values(vs)
    ensures !r.Values? ==> Extend(vs, r) == r
    ensures Extend([], r) == r
  {}

  // One turn of the loop.
  lemma WalkStep(decode: Decoder, s: seq<byte>)
    ensures s == [] ==> Walk(decode, s) == Values([])
    ensures s != [] && NextEntry(s).Short? ==> Walk(decode, s) == Failed(NextEntry(s).error)
    ensures s != [] && NextEntry(s).NegativeSize? ==> Walk(decode, s) == Panicked
    ensures s != [] && NextEntry(s).Entry? ==>
              var v := decode(NextEntry(s).entry.message);
              Walk(decode, s) == if v.Err? then Failed(v.error) else Extend([v.value], Walk(decode, NextEntry(s).rest))
  {
    hide NextEntry;
  }

  function SetWire(entries: seq<SetEntry>): seq<byte> {
    if entries == [] then [] else EntryWire(entries[0]) + SetWire(entries[1..])
  }

  // Each entry holds a message that decodes to the value at its place in vs.
  ghost predicate Holds(decode: Decoder, entries: seq<SetEntry>, vs: seq<Nullable>) {
    && |entries| == |vs|
    && forall i :: 0 <= i < |entries| ==>
         |entries[i].message| <= MAX_INT32 && decode(entries[i].message) == Ok(vs[i])
  }

  lemma {:induction false} WalkWire(decode: Decoder, entries: seq<SetEntry>, vs: seq<Nullable>, rest: seq<byte>)
    requires Holds(decode, entries, vs)
    ensures Walk(decode, SetWire(entries) + rest) == Extend(vs, Walk(decode, rest))
  {
    hide NextEntry, EntryWire;
    if entries == [] {
      assert SetWire(entries) + rest == rest;
      assert Walk(decode, rest).Values? ==> vs + Walk(decode, rest).values == Walk(decode, rest).values;
    } else {
      var e, rest' := entries[0], SetWire(entries[1..]) + rest;
      assert SetWire(entries) + rest == EntryWire(e) + rest';
      NextEntryWire(e, rest');
      WalkWire(decode, entries[1..], vs[1..], rest);
      ExtendTwice([vs[0]], vs[1..], Walk(decode, rest));
      assert [vs[0]] + vs[1..] == vs;
    }
  }

  lemma ExtendTwice(a: seq<Nullable>, b: seq<Nullable>, r: SetResult)
    ensures Extend(a, Extend(b, r)) == Extend(a + b, r)
  {
    if r.Values? {
      assert a + (b + r.values) == (a + b) + r.values;
    }
  }

  lemma {:induction false} WalkEntries(decode: Decoder, s: seq<byte>) returns (entries: seq<SetEntry>)
    requires Walk(decode, s).Values?
    ensures s == SetWire(entries) && Holds(decode, entries, Walk(decode, s).values)
    decreases |s|
  {
    hide NextEntry, EntryWire;
    if s == [] {
      entries := [];
    } else {
      NextEntryFound(s);
      var entries' := WalkEntries(decode, NextEntry(s).rest);
      entries := [NextEntry(s).entry] + entries';
    }
  }

  lemma {:induction false} WalkPanics(decode: Decoder, s: seq<byte>) returns (a: seq<byte>, b: seq<byte>)
    requires Walk(decode, s) == Panicked
    ensures s == a + b && Walk(decode, a).Values? && NegativeSizeAt(b)
    decreases |s|
  {
    hide NextEntry, EntryWire, NegativeSizeAt;
    NextEntryNegative(s);
    if NextEntry(s).NegativeSize? {
      a, b := [], s;
    } else {
      var e, rest := NextEntry(s).entry, NextEntry(s).rest;
      NextEntryFound(s);
      var a', b' := WalkPanics(decode, rest);
      NextEntryWire(e, a');
      a, b := EntryWire(e) + a', b';
      assert s == a + b;
    }
  }

  // ----- decodeMessageSetV1 -----

  // The value field of a message that decodes.
  function ValueOf(message: seq<byte>): Result<Nullable> {
    match Decode(message) case Ok(m) => Ok(m.value) case Err(e) => Err(e)
  }

  function DecodeSet(s: seq<byte>): SetResult {
    Walk(ValueOf, s)
  }

  method DecodeMessageSetV1(messageSet: seq<byte>) returns (r: SetResult)
    ensures r == DecodeSet(messageSet)
  {
    hide ValueOf, NextEntry, Walk, Extend;
    var reader := new ByteReader(messageSet);
    var values: seq<Nullable> := [];
    ghost var goal := DecodeSet(messageSet);
    ExtendEnds([], goal);
    while reader.Remaining() > 0
      invariant reader.Valid()
      invariant goal == Extend(values, DecodeSet(reader.Rest()))
      decreases reader.Remaining()
    {
      WalkStep(ValueOf, reader.Rest());
      ExtendEnds(values, DecodeSet(reader.Rest()));
      var h := NextMessage(reader);
      match h {
        case Short(e) => return Failed(e);
        case NegativeSize => return Panicked;
        case Entry(entry, _) =>
          var msg := DecodeValue(entry.message);
          if msg.Err? { return Failed(msg.error); }
          ExtendTwice(values, [msg.value], DecodeSet(reader.Rest()));
          values := values + [msg.value];
      }
    }
    WalkStep(ValueOf, reader.Rest());
    ExtendEnds(values, DecodeSet(reader.Rest()));
    r := Values(values);
  }

  // wire.go:181-192, the part of the loop body that moves the cursor.
  method NextMessage(reader: ByteReader) returns (h: Head)
    requires reader.Valid()
    modifies reader`i
    ensures reader.Valid() && h == NextEntry(old(reader.Rest()))
    ensures h.Entry? ==> reader.Rest() == h.rest
  {
    var offset := reader.ReadInt64();
    if offset.Err? { return Short(offset.error); }
    var size := reader.ReadInt32();
    if size.Err? { return Short(size.error); }
    if size.value > reader.Remaining() { return Short(UnexpectedEOF); }
    if size.value < 0 { return NegativeSize; }
    ghost var rest := reader.Rest();
    var msgBytes := reader.b[reader.i..reader.i + size.value];
    reader.i := reader.i + size.value;
    assert rest[..size.value] == msgBytes && rest[size.value..] == reader.Rest();
    h := Entry(SetEntry(offset.value, msgBytes), reader.b[reader.i..]);
  }

  method DecodeValue(msgBytes: seq<byte>) returns (r: Result<Nullable>)
    ensures r == ValueOf(msgBytes)
  {
    var msg := DecodeMessage(msgBytes);
    r := match msg case Ok(m) => Ok(m.value) case Err(e) => Err(e);
  }

  // Success means exactly: the bytes are a sequence of entries, each an acceptable
  // message, and the values are theirs in order.
  lemma SetIff(s: seq<byte>, vs: seq<Nullable>)
    ensures DecodeSet(s) == Values(vs) <==> exists entries :: s == SetWire(entries) && Holds(ValueOf, entries, vs)
  {
    hide SetWire, ValueOf, Holds, NextEntry;
    if DecodeSet(s) == Values(vs) {
      var entries := WalkEntries(ValueOf, s);
    }
    forall entries | s == SetWire(entries) && Holds(ValueOf, entries, vs) ensures DecodeSet(s) == Values(vs) {
      WalkWire(ValueOf, entries, vs, []);
      assert SetWire(entries) + [] == s;
    }
  }

  // A decodable prefix contributes its values and nothing else, whatever the outcome of
  // the rest: values, error or panic.
  lemma SetHomomorphism(a: seq<byte>, b: seq<byte>)
    requires DecodeSet(a).Values?
    ensures DecodeSet(a + b) == Extend(DecodeSet(a).values, DecodeSet(b))
  {
    hide Walk, ValueOf, SetWire, Holds;
    var entries := WalkEntries(ValueOf, a);
    WalkWire(ValueOf, entries, DecodeSet(a).values, b);
  }

  // The decoder panics exactly when it reaches, behind entries that all decode, an entry
  // with a negative size; on every other input it returns values or an error.
  lemma PanicIff(s: seq<byte>)
    ensures DecodeSet(s) == Panicked <==>
              exists a, b :: s == a + b && DecodeSet(a).Values? && NegativeSizeAt(b)
  {
    hide ValueOf, NextEntry;
    if DecodeSet(s) == Panicked {
      var a, b := WalkPanics(ValueOf, s);
    }
    forall a, b | s == a + b && DecodeSet(a).Values? && NegativeSizeAt(b) ensures DecodeSet(s) == Panicked {
      NextEntryNegative(b);
      SetHomomorphism(a, b);
    }
  }

  // ----- Byte accounting -----

  function MessageBytes(entries: seq<SetEntry>): nat {
    if entries == [] then 0 else |entries[0].message| + MessageBytes(entries[1..])
  }

  lemma {:induction false} EntriesAccount(decode: Decoder, entries: seq<SetEntry>, vs: seq<Nullable>)
    requires Holds(decode, entries, vs)
    requires forall m :: decode(m).Ok? ==> |m| >= 14
    ensures |SetWire(entries)| == 12 * |vs| + MessageBytes(entries)
    ensures 14 * |vs| <= MessageBytes(entries)
  {
    if entries != [] {
      EntriesAccount(decode, entries[1..], vs[1..]);
    }
  }

  lemma Sized()
    ensures forall m :: ValueOf(m).Ok? ==> |m| >= 14
  {}

  // A decoded set is consumed exactly: 12 bytes per value plus the messages' bytes, and
  // at least 26 bytes per value.
  lemma SetAccounting(s: seq<byte>, vs: seq<Nullable>)
    requires DecodeSet(s) == Values(vs)
    ensures exists entries :: s == SetWire(entries) && Holds(ValueOf, entries, vs)
              && |s| == 12 * |vs| + MessageBytes(entries)
    ensures 26 * |vs| <= |s|
  {
    var entries := WalkEntries(ValueOf, s);
    Sized();
    hide ValueOf;
    EntriesAccount(ValueOf, entries, vs);
  }

  // ----- encodeMessageSetV1 -----

  // The record set of one value: offset 0 and a message with a nil key.
  function EncodedSet(value: Nullable): seq<byte> {
    EntryWire(SetEntry(0, Encoded(Nil, value)))
  }

  method EncodeMessageSetV1(value: Nullable) returns (r: seq<byte>)
    ensures r == EncodedSet(value)
  {
    var raw := EncodeMessage(Nil, value);
    r := FrameMessage(raw);
  }

  // wire.go:204-208
  method FrameMessage(raw: seq<byte>) returns (r: seq<byte>)
    ensures r == EntryWire(SetEntry(0, raw))
  {
    var w := new ByteWriter();
    w.WriteInt64(0);
    var n := ToInt32(|raw|);
    PutToInt32(|raw|);
    w.WriteInt32(n);
    w.b := w.b + raw;
    r := w.b;
  }

  // What is sent: an entry of offset 0 holding a magic 1 message with attributes 0,
  // timestamp 0, no key, and the value.
  lemma EncodedSetEntry(value: Nullable, rest: seq<byte>)
    requires FitsMessage(value)
    ensures var h := NextEntry(EncodedSet(value) + rest);
            && h.Entry? && h.rest == rest && h.entry.offset == 0
            && Decode(h.entry.message) == Ok(Message(1, 0, 0, Nil, value))
  {
    hide Encoded, EntryWire, NextEntry, Decode;
    EncodedLength(value);
    NextEntryWire(SetEntry(0, Encoded(Nil, value)), rest);
    MessageRoundTrip(Nil, value);
  }

  // The same byte by byte, behind which comes the message's checksum and the rest of it.
  lemma EncodedSetBytes(value: Nullable)
    requires FitsMessage(value)
    ensures var s := EncodedSet(value);
            var n := 22 + |Payload(value)|;
            && s[..8] == [0, 0, 0, 0, 0, 0, 0, 0]
            && s[8..12] == [n / 0x100_0000, n / 0x1_0000 % 0x100, n / 0x100 % 0x100, n % 0x100]
            && s[16..] == [1, 0, 0, 0, 0, 0, 0, 0, 0, 0, 0xff, 0xff, 0xff, 0xff] + Codec.BytesWire(value)
  {
    hide Encoded, Codec.BytesWire, EntryWire, Put;
    EncodedLength(value);
    PutSmall(0);
    PutBytes(22 + |Payload(value)|);
    var raw := Encoded(Nil, value);
    EntryParts(SetEntry(0, raw));
    NilKeyBytes(value);
    assert EncodedSet(value)[16..] == EncodedSet(value)[12..][4..];
  }

  lemma NilKeyBytes(value: Nullable)
    ensures Encoded(Nil, value)[4..]
         == [1, 0, 0, 0, 0, 0, 0, 0, 0, 0, 0xff, 0xff, 0xff, 0xff] + Codec.BytesWire(value)
  {
    hide Encoded, Codec.BytesWire;
    EncodedBytes(Nil, value);
    Codec.SliceBytes([]);
  }

  lemma EntryParts(e: SetEntry)
    ensures var s := EntryWire(e);
            && |s| == 12 + |e.message|
            && s[..8] == Put(8, e.offset) && s[8..12] == Put(4, |e.message|) && s[12..] == e.message
  {
    hide Put;
  }

  function EncodedSets(vs: seq<Nullable>): seq<byte> {
    if vs == [] then [] else EncodedSet(vs[0]) + EncodedSets(vs[1..])
  }

  // The values whose message size still fits its int32 field.
  predicate FitsMessage(value: Nullable) {
    22 + |Payload(value)| <= MAX_INT32
  }

  lemma EncodedLength(value: Nullable)
    ensures |Encoded(Nil, value)| == 22 + |Payload(value)|
    ensures |EncodedSet(value)| == 34 + |Payload(value)|
  {}

  lemma EncodedValue(value: Nullable)
    requires FitsMessage(value)
    ensures |Encoded(Nil, value)| <= MAX_INT32 && ValueOf(Encoded(Nil, value)) == Ok(value)
  {
    EncodedLength(value);
    MessageRoundTrip(Nil, value);
  }

  // Decoding any concatenation of encoded sets gives back the list of values, nil kept
  // apart from empty.
  lemma {:induction false} SetsRoundTrip(vs: seq<Nullable>)
    requires forall v :: v in vs ==> FitsMessage(v)
    ensures DecodeSet(EncodedSets(vs)) == Values(vs)
  {
    hide Encoded, EntryWire, NextEntry, ValueOf;
    if vs != [] {
      EncodedValue(vs[0]);
      NextEntryWire(SetEntry(0, Encoded(Nil, vs[0])), EncodedSets(vs[1..]));
      SetsRoundTrip(vs[1..]);
      assert [vs[0]] + vs[1..] == vs;
    }
  }

  // For one value this holds exactly when its message fits the size field.
  lemma SetRoundTrip(value: Nullable)
    ensures DecodeSet(EncodedSet(value)) == Values([value]) <==> FitsMessage(value)
  {
    hide Put, EntryWire, Encoded, ValueOf, NextEntry, Walk;
    if FitsMessage(value) {
      SetsRoundTrip([value]);
      assert EncodedSets([value]) == EncodedSet(value);
    } else if DecodeSet(EncodedSet(value)) == Values([value]) {
      DecodedFits(EncodedSet(value), value);
      EncodedLength(value);
    }
  }

  // A set holding one value is no longer than an entry with the largest message.
  lemma DecodedFits(s: seq<byte>, value: Nullable)
    requires DecodeSet(s) == Values([value])
    ensures |s| <= 12 + MAX_INT32
  {
    Sized();
    hide ValueOf;
    var entries := WalkEntries(ValueOf, s);
    EntriesAccount(ValueOf, entries, [value]);
    assert MessageBytes(entries) == |entries[0].message| + MessageBytes(entries[1..]);
  }
}
