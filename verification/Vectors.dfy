// Formats written out: a frame and a reply, byte by byte.
module Vectors {
  import opened Types
  import opened BigEndian
  import opened Codec
  import opened Replies

  lemma FrameExample()
    ensures FrameWire([0x78]) == [0, 0, 0, 1, 0x78]
  {
    FrameBytes([0x78]);
  }

  // Correlation id 7 and two topics: "b" with partition 5 at offset 9, and "a" with error
  // code 3 for partition 4 and partition 5 at offset 258.
  function ExampleReply(): seq<byte> {
    [0, 0, 0, 7] + ([0, 0, 0, 2] + (ExampleBlockB() + ExampleBlockA()))
  }

  function ExampleBlockB(): seq<byte> {
    [0, 1] + [0x62] + ([0, 0, 0, 1] + ([0, 0, 0, 5] + [0, 0] + [0, 0, 0, 0, 0, 0, 0, 9]))
  }

  function ExampleBlockA(): seq<byte> {
    [0, 1] + [0x61] + ([0, 0, 0, 2] + (([0, 0, 0, 4] + [0, 3] + [0, 0, 0, 0, 0, 0, 0, 8])
                                       + ([0, 0, 0, 5] + [0, 0] + [0, 0, 0, 0, 0, 0, 1, 2])))
  }

  lemma ReplyExample()
    ensures ScanReply(ExampleReply(), 7, [0x61], 5) == Ok(258)
    ensures ScanReply(ExampleReply(), 7, [0x61], 4) == Err(ProduceError(3))
    ensures ScanReply(ExampleReply(), 7, [0x62], 5) == Ok(9)
    ensures ScanReply(ExampleReply(), 7, [0x61], 6) == Err(MissingFromResponse)
    ensures ScanReply(ExampleReply(), 8, [0x61], 5) == Err(CorrelationMismatch(7, 8))
  {
    hide ScanReply;
    var e, f, g := Entry(5, 0, 9), Entry(4, 3, 8), Entry(5, 0, 258);
    var b, a := Block(1, [0x62], 1, [e]), Block(1, [0x61], 2, [f, g]);
    ExampleBytes(b, a, e, f, g);
    var wire := ReplyWire(7, 2, BlocksWire([b, a]) + []);
    ScanIsLookup(7, 2, [b, a], [], [0x61], 5);
    ScanIsLookup(7, 2, [b, a], [], [0x61], 4);
    ScanIsLookup(7, 2, [b, a], [], [0x62], 5);
    ScanIsLookup(7, 2, [b, a], [], [0x61], 6);
    ScanReplyHead(8, 7, 2, BlocksWire([b, a]) + [], [0x61], 5);
    ExampleLookups(b, a, e, f, g);
  }

  lemma ExampleBytes(b: Block, a: Block, e: Entry, f: Entry, g: Entry)
    requires e == Entry(5, 0, 9) && f == Entry(4, 3, 8) && g == Entry(5, 0, 258)
    requires b == Block(1, [0x62], 1, [e]) && a == Block(1, [0x61], 2, [f, g])
    ensures ReplyWire(7, 2, BlocksWire([b, a]) + []) == ExampleReply()
  {
    BlockBytes(b, [e], a, [f, g]);
    EntriesBytes(e, f, g);
    hide Put, BlockWire, EntriesWire, EntryWire;
    Numbers();
    assert [b, a][1..] == [a] && [a][1..] == [];
    assert BlocksWire([a]) == BlockWire(a) + [];
    OneAfter(BlocksWire([a]), BlockWire(a));
    assert BlocksWire([b, a]) == BlockWire(b) + BlocksWire([a]);
    hide BlocksWire;
    assert BlocksWire([b, a]) + [] == BlocksWire([b, a]);
  }

  lemma OneAfter(s: seq<byte>, t: seq<byte>)
    requires s == t + []
    ensures s == t
  {}

  lemma BlockBytes(b: Block, es: seq<Entry>, a: Block, fs: seq<Entry>)
    requires b == Block(1, [0x62], 1, es) && a == Block(1, [0x61], 2, fs)
    ensures BlockWire(b) == [0, 1] + [0x62] + ([0, 0, 0, 1] + EntriesWire(es))
    ensures BlockWire(a) == [0, 1] + [0x61] + ([0, 0, 0, 2] + EntriesWire(fs))
  {
    hide Put, EntriesWire;
    Numbers();
  }

  lemma EntriesBytes(e: Entry, f: Entry, g: Entry)
    requires e == Entry(5, 0, 9) && f == Entry(4, 3, 8) && g == Entry(5, 0, 258)
    ensures EntriesWire([e]) == [0, 0, 0, 5] + [0, 0] + [0, 0, 0, 0, 0, 0, 0, 9]
    ensures EntriesWire([f, g]) == ([0, 0, 0, 4] + [0, 3] + [0, 0, 0, 0, 0, 0, 0, 8])
                                   + ([0, 0, 0, 5] + [0, 0] + [0, 0, 0, 0, 0, 0, 1, 2])
  {
    hide Put;
    Numbers();
    assert EntryWire(e) == [0, 0, 0, 5] + [0, 0] + [0, 0, 0, 0, 0, 0, 0, 9];
    assert EntryWire(f) == [0, 0, 0, 4] + [0, 3] + [0, 0, 0, 0, 0, 0, 0, 8];
    assert EntryWire(g) == [0, 0, 0, 5] + [0, 0] + [0, 0, 0, 0, 0, 0, 1, 2];
    hide EntryWire;
    assert [e][1..] == [] && [f, g][1..] == [g] && [g][1..] == [];
    assert EntriesWire([]) == [];
    assert EntriesWire([e]) == EntryWire(e) + EntriesWire([e][1..]);
    assert EntriesWire([g]) == EntryWire(g) + EntriesWire([g][1..]);
    OneAfter(EntriesWire([e]), EntryWire(e));
    OneAfter(EntriesWire([g]), EntryWire(g));
    assert EntriesWire([f, g]) == EntryWire(f) + EntriesWire([g]);
  }

  lemma Numbers()
    ensures Put(2, 0) == [0, 0] && Put(2, 1) == [0, 1] && Put(2, 3) == [0, 3]
    ensures Put(4, 1) == [0, 0, 0, 1] && Put(4, 2) == [0, 0, 0, 2] && Put(4, 4) == [0, 0, 0, 4]
    ensures Put(4, 5) == [0, 0, 0, 5] && Put(4, 7) == [0, 0, 0, 7]
    ensures Put(8, 8) == [0, 0, 0, 0, 0, 0, 0, 8] && Put(8, 9) == [0, 0, 0, 0, 0, 0, 0, 9]
    ensures Put(8, 258) == [0, 0, 0, 0, 0, 0, 1, 2]
  {
    hide Put;
    PutBytes(0);
    PutBytes(1);
    PutBytes(2);
    PutBytes(3);
    PutBytes(4);
    PutBytes(5);
    PutBytes(7);
    PutSmall(8);
    PutSmall(9);
    PutSmall(258);
  }

  lemma ExampleLookups(b: Block, a: Block, e: Entry, f: Entry, g: Entry)
    requires e == Entry(5, 0, 9) && f == Entry(4, 3, 8) && g == Entry(5, 0, 258)
    requires b == Block(1, [0x62], 1, [e]) && a == Block(1, [0x61], 2, [f, g])
    ensures var rs := Records([b, a]);
            && Lookup(rs, [0x61], 5) == Ok(258) && Lookup(rs, [0x61], 4) == Err(ProduceError(3))
            && Lookup(rs, [0x62], 5) == Ok(9) && Lookup(rs, [0x61], 6) == Err(MissingFromResponse)
  {
    var rs := Records([b, a]);
    assert [b, a][1..] == [a] && [a][1..] == [];
    assert Tagged([0x62], [e]) == [Record([0x62], e)];
    assert Tagged([0x61], [f, g]) == [Record([0x61], f), Record([0x61], g)];
    assert Records([a]) == Tagged([0x61], [f, g]) + Records([]);
    assert rs == Tagged([0x62], [e]) + Records([a]);
    assert rs == [Record([0x62], e), Record([0x61], f), Record([0x61], g)];
    LookupFirst(rs, 0, [0x62], 5);
    LookupFirst(rs, 1, [0x61], 4);
    LookupFirst(rs, 2, [0x61], 5);
    LookupAppend(rs, [], [0x61], 6);
    assert rs + [] == rs && NoMatch(rs, [0x61], 6);
  }

  // A negative count of topics, or of a topic's entries, announces none.
  lemma NegativeCounts(n: int32, rest: seq<byte>, corr: int32, topic: seq<byte>, partition: int32)
    requires n < 0
    ensures ScanReply(Put(4, corr) + (Put(4, n) + rest), corr, topic, partition) == Err(MissingFromResponse)
    ensures ScanBlock([0, 1, 0x62] + (Put(4, n) + rest), topic, partition) == Next(rest)
  {
    hide Put, ScanReply, ScanBlock;
    assert ReplyWire(corr, n, rest) == Put(4, corr) + (Put(4, n) + rest);
    ScanReplyHead(corr, corr, n, rest, topic, partition);
    var b := Block(1, [0x62], n, []);
    Numbers();
    assert NameWire(1, [0x62]) == [0, 1, 0x62];
    assert BlockWire(b) == [0, 1, 0x62] + (Put(4, n) + []);
    assert [0, 1, 0x62] + (Put(4, n) + []) + rest == [0, 1, 0x62] + (Put(4, n) + rest);
    ScanBlockWire(b, rest, topic, partition);
  }
}
