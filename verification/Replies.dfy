// client.go:91-143: scanning a produce reply for the entry of one topic and partition.
module Replies {
  import opened Types
  import opened BigEndian
  import opened Wire

  datatype Entry = Entry(partition: int32, code: int16, offset: int64)

  // ----- The scan -----

  // client.go:110-114: three reads per entry with all their errors dropped.
  function SkipEntry(s: seq<byte>): seq<byte> {
    CursorInt64(CursorInt16(CursorInt32(s).rest).rest).rest
  }

  function SkipEntries(count: int, s: seq<byte>): seq<byte>
    decreases count
  {
    if count <= 0 then s else SkipEntries(count - 1, SkipEntry(s))
  }

  function CursorEntry(s: seq<byte>): Scan<Entry> {
    var c1 := CursorInt32(s);
    match c1.res case Err(e) => Scan(Err(e), c1.rest) case Ok(partition) =>
    var c2 := CursorInt16(c1.rest);
    match c2.res case Err(e) => Scan(Err(e), c2.rest) case Ok(code) =>
    var c3 := CursorInt64(c2.rest);
    match c3.res case Err(e) => Scan(Err(e), c3.rest) case Ok(offset) =>
    Scan(Ok(Entry(partition, code, offset)), c3.rest)
  }

  // How scanning part of the reply ends: with Produce's result, or at what follows.
  datatype Progress = Done(result: Result<int64>) | Next(rest: seq<byte>)

  function ScanEntries(count: int, s: seq<byte>, partition: int32): Progress
    decreases count
  {
    if count <= 0 then Next(s) else
    var c := CursorEntry(s);
    match c.res
    case Err(e) => Done(Err(e))
    case Ok(entry) =>
      if entry.partition == partition then Done(Answer(entry))
      else ScanEntries(count - 1, c.rest, partition)
  }

  // Code 0 is success.
  function Answer(e: Entry): Result<int64> {
    if e.code != 0 then Err(ProduceError(e.code)) else Ok(e.offset)
  }

  function ScanBlock(s: seq<byte>, topic: seq<byte>, partition: int32): Progress {
    var t := CursorString(s);
    match t.res case Err(e) => Done(Err(e)) case Ok(gotTopic) =>
    var c := CursorInt32(t.rest);
    if gotTopic != topic then Next(SkipEntries(if c.res.Ok? then c.res.value else 0, c.rest))
    else
      match c.res
      case Err(e) => Done(Err(e))
      case Ok(partCount) => ScanEntries(partCount, c.rest, partition)
  }

  function ScanTopics(count: int, s: seq<byte>, topic: seq<byte>, partition: int32): Result<int64>
    decreases count
  {
    if count <= 0 then Err(MissingFromResponse) else
    match ScanBlock(s, topic, partition)
    case Done(result) => result
    case Next(rest) => ScanTopics(count - 1, rest, topic, partition)
  }

  function ScanReply(resp: seq<byte>, corr: int32, topic: seq<byte>, partition: int32): Result<int64> {
    var c := CursorInt32(resp);
    match c.res case Err(e) => Err(e) case Ok(gotCorr) =>
    if gotCorr != corr then Err(CorrelationMismatch(gotCorr, corr)) else
    var n := CursorInt32(c.rest);
    match n.res case Err(e) => Err(e) case Ok(topicCount) =>
    ScanTopics(topicCount, n.rest, topic, partition)
  }

  // client.go:91-143
  method ScanResponse(resp: seq<byte>, corr: int32, topic: seq<byte>, partition: int32) returns (res: Result<int64>)
    ensures res == ScanReply(resp, corr, topic, partition)
  {
    var r := new ByteReader(resp);
    var gotCorr := r.ReadInt32();
    if gotCorr.Err? { return Err(gotCorr.error); }
    if gotCorr.value != corr { return Err(CorrelationMismatch(gotCorr.value, corr)); }
    var topicCount := r.ReadInt32();
    if topicCount.Err? { return Err(topicCount.error); }
    res := ScanTopicBlocks(r, topicCount.value, topic, partition);
  }

  method ScanTopicBlocks(r: ByteReader, topicCount: int32, topic: seq<byte>, partition: int32)
    returns (res: Result<int64>)
    requires r.Valid()
    modifies r`i
    ensures res == ScanTopics(topicCount, old(r.Rest()), topic, partition)
  {
    hide ScanBlock;
    ghost var goal := ScanTopics(topicCount, r.Rest(), topic, partition);
    var i := 0;
    while i < topicCount
      invariant r.Valid()
      invariant goal == ScanTopics(topicCount - i, r.Rest(), topic, partition)
    {
      var p := ScanTopicBlock(r, topic, partition, topicCount - i);
      if p.Done? { return p.result; }
      i := i + 1;
    }
    res := Err(MissingFromResponse);
  }

  // client.go:104-140, the body of the loop over topics.
  // `left` counts the topic blocks from here on.
  method ScanTopicBlock(r: ByteReader, topic: seq<byte>, partition: int32, ghost left: int)
    returns (p: Progress)
    requires r.Valid() && left > 0
    modifies r`i
    ensures r.Valid()
    ensures ScanTopics(left, old(r.Rest()), topic, partition)
         == if p.Done? then p.result else ScanTopics(left - 1, r.Rest(), topic, partition)
  {
    var gotTopic := r.ReadString();
    if gotTopic.Err? { return Done(Err(gotTopic.error)); }
    if gotTopic.value != topic {
      SkipOtherTopic(r);
      return Next(r.b[r.i..]);
    }
    var partCount := r.ReadInt32();
    if partCount.Err? { return Done(Err(partCount.error)); }
    p := ScanPartitions(r, partCount.value, partition);
  }

  // client.go:109-114, the inner loop over another topic's entries.
  method SkipOtherTopic(r: ByteReader)
    requires r.Valid()
    modifies r`i
    ensures r.Valid()
    ensures var c := CursorInt32(old(r.Rest()));
            r.Rest() == SkipEntries(if c.res.Ok? then c.res.value else 0, c.rest)
  {
    var n := r.ReadInt32();
    var partCount: int := if n.Ok? then n.value else 0;
    ghost var start := r.Rest();
    var j := 0;
    while j < partCount
      invariant r.Valid()
      invariant SkipEntries(partCount, start) == SkipEntries(partCount - j, r.Rest())
    {
      var _ := r.ReadInt32();
      var _ := r.ReadInt16();
      var _ := r.ReadInt64();
      j := j + 1;
    }
  }

  // client.go:121-140, the inner loop over the wanted topic's entries.
  method ScanPartitions(r: ByteReader, partCount: int32, partition: int32) returns (p: Progress)
    requires r.Valid()
    modifies r`i
    ensures r.Valid() && p == ScanEntries(partCount, old(r.Rest()), partition)
    ensures p.Next? ==> r.Rest() == p.rest
  {
    hide CursorEntry;
    ghost var start := r.Rest();
    var j := 0;
    while j < partCount
      invariant r.Valid()
      invariant ScanEntries(partCount, start, partition) == ScanEntries(partCount - j, r.Rest(), partition)
    {
      var e := ReadEntry(r);
      if e.Err? { return Done(Err(e.error)); }
      if e.value.partition == partition {
        if e.value.code != 0 { return Done(Err(ProduceError(e.value.code))); }
        return Done(Ok(e.value.offset));
      }
      j := j + 1;
    }
    p := Next(r.b[r.i..]);
  }

  // client.go:122-133, the three reads of an entry.
  method ReadEntry(r: ByteReader) returns (e: Result<Entry>)
    requires r.Valid()
    modifies r`i
    ensures r.Valid() && Scan(e, r.Rest()) == CursorEntry(old(r.Rest()))
  {
    var gotPart := r.ReadInt32();
    if gotPart.Err? { return Err(gotPart.error); }
    var code := r.ReadInt16();
    if code.Err? { return Err(code.error); }
    var offset := r.ReadInt64();
    if offset.Err? { return Err(offset.error); }
    e := Ok(Entry(gotPart.value, code.value, offset.value));
  }

  // ----- What a reply looks like -----

  // A topic block as sent, with the count fields it carries.
  datatype Block = Block(nameField: int16, name: seq<byte>, countField: int32, entries: seq<Entry>)

  // A length or count field announces n items: a negative one announces none.
  predicate Announces(field: int, n: nat) {
    n == if field < 0 then 0 else field
  }

  predicate WellFormed(b: Block) {
    Announces(b.nameField, |b.name|) && Announces(b.countField, |b.entries|)
  }

  function EntryWire(e: Entry): seq<byte> {
    Put(4, e.partition) + Put(2, e.code) + Put(8, e.offset)
  }

  function EntriesWire(es: seq<Entry>): seq<byte> {
    if es == [] then [] else EntryWire(es[0]) + EntriesWire(es[1..])
  }

  function NameWire(nameField: int16, name: seq<byte>): seq<byte> {
    Put(2, nameField) + name
  }

  function BlockWire(b: Block): seq<byte> {
    NameWire(b.nameField, b.name) + (Put(4, b.countField) + EntriesWire(b.entries))
  }

  function BlocksWire(bs: seq<Block>): seq<byte> {
    if bs == [] then [] else BlockWire(bs[0]) + BlocksWire(bs[1..])
  }

  // ----- The search the scan amounts to -----

  datatype Record = Record(topic: seq<byte>, entry: Entry)

  function Tagged(topic: seq<byte>, es: seq<Entry>): (rs: seq<Record>)
    ensures |rs| == |es|
  {
    seq(|es|, i requires 0 <= i < |es| => Record(topic, es[i]))
  }

  // All entries of all blocks in order, each with its topic.
  function Records(bs: seq<Block>): seq<Record> {
    if bs == [] then [] else Tagged(bs[0].name, bs[0].entries) + Records(bs[1..])
  }

  predicate Matches(r: Record, topic: seq<byte>, partition: int32) {
    r.topic == topic && r.entry.partition == partition
  }

  // The first record of this topic and partition decides.
  function Lookup(rs: seq<Record>, topic: seq<byte>, partition: int32): Result<int64> {
    if rs == [] then Err(MissingFromResponse)
    else if Matches(rs[0], topic, partition) then Answer(rs[0].entry)
    else Lookup(rs[1..], topic, partition)
  }

  ghost predicate NoMatch(rs: seq<Record>, topic: seq<byte>, partition: int32) {
    forall i :: 0 <= i < |rs| ==> !Matches(rs[i], topic, partition)
  }

  lemma {:induction false} LookupAppend(a: seq<Record>, b: seq<Record>, topic: seq<byte>, partition: int32)
    ensures NoMatch(a, topic, partition) ==> Lookup(a + b, topic, partition) == Lookup(b, topic, partition)
    ensures !NoMatch(a, topic, partition) ==> Lookup(a + b, topic, partition) == Lookup(a, topic, partition)
  {
    if a == [] {
      assert a + b == b;
    } else {
      assert (a + b)[1..] == a[1..] + b;
      LookupAppend(a[1..], b, topic, partition);
      NoMatchSplit([a[0]], a[1..], topic, partition);
      assert a == [a[0]] + a[1..];
    }
  }

  // Lookup is the answer of the first match, at any index i.
  lemma LookupFirst(rs: seq<Record>, i: nat, topic: seq<byte>, partition: int32)
    requires i < |rs| && Matches(rs[i], topic, partition) && NoMatch(rs[..i], topic, partition)
    ensures Lookup(rs, topic, partition) == Answer(rs[i].entry)
  {
    assert rs == rs[..i] + rs[i..];
    LookupAppend(rs[..i], rs[i..], topic, partition);
  }

  // ----- The scan of a well-formed reply is the lookup -----

  lemma CursorEntryWire(e: Entry, rest: seq<byte>)
    ensures CursorEntry(EntryWire(e) + rest) == Scan(Ok(e), rest)
  {
    Widths();
    var s2 := Put(8, e.offset) + rest;
    var s1 := Put(2, e.code) + s2;
    assert EntryWire(e) + rest == Put(4, e.partition) + s1;
    CursorPut(4, e.partition, s1);
    CursorPut(2, e.code, s2);
    CursorPut(8, e.offset, rest);
  }

  lemma SkipEntryWire(e: Entry, rest: seq<byte>)
    ensures SkipEntry(EntryWire(e) + rest) == rest
  {
    CursorEntryWire(e, rest);
    SkipIsEntry(EntryWire(e) + rest);
  }

  // Where the three reads succeed, skipping an entry moves as reading one does.
  lemma SkipIsEntry(s: seq<byte>)
    ensures CursorEntry(s).res.Ok? ==> SkipEntry(s) == CursorEntry(s).rest
  {}

  lemma {:induction false} SkipEntriesWire(es: seq<Entry>, rest: seq<byte>)
    ensures SkipEntries(|es|, EntriesWire(es) + rest) == rest
  {
    hide SkipEntry, EntryWire;
    if es == [] {
      assert EntriesWire(es) + rest == rest;
    } else {
      var rest' := EntriesWire(es[1..]) + rest;
      assert EntriesWire(es) + rest == EntryWire(es[0]) + rest';
      SkipEntryWire(es[0], rest');
      SkipEntriesWire(es[1..], rest);
    }
  }

  // Entries that do not match are passed, however many more are announced.
  lemma {:induction false} ScanPastEntries(
      es: seq<Entry>, count: int, rest: seq<byte>, topic: seq<byte>, partition: int32)
    requires count >= |es| && NoMatch(Tagged(topic, es), topic, partition)
    ensures ScanEntries(count, EntriesWire(es) + rest, partition) == ScanEntries(count - |es|, rest, partition)
  {
    hide CursorEntry, EntryWire;
    if es == [] {
      assert EntriesWire(es) + rest == rest;
    } else {
      var rest' := EntriesWire(es[1..]) + rest;
      assert EntriesWire(es) + rest == EntryWire(es[0]) + rest';
      CursorEntryWire(es[0], rest');
      assert !Matches(Tagged(topic, es)[0], topic, partition);
      forall i | 0 <= i < |es| - 1 ensures !Matches(Tagged(topic, es[1..])[i], topic, partition) {
        assert Tagged(topic, es[1..])[i] == Tagged(topic, es)[i + 1];
      }
      ScanPastEntries(es[1..], count - 1, rest, topic, partition);
    }
  }

  lemma ScanHit(e: Entry, count: int, rest: seq<byte>)
    requires count > 0
    ensures ScanEntries(count, EntryWire(e) + rest, e.partition) == Done(Answer(e))
  {
    hide CursorEntry, EntryWire;
    CursorEntryWire(e, rest);
  }

  // The first match among the records, if there is one.
  lemma {:induction false} SplitFirst(rs: seq<Record>, topic: seq<byte>, partition: int32) returns (i: nat)
    requires !NoMatch(rs, topic, partition)
    ensures i < |rs| && Matches(rs[i], topic, partition) && NoMatch(rs[..i], topic, partition)
  {
    if Matches(rs[0], topic, partition) {
      i := 0;
    } else {
      var k :| 0 <= k < |rs| && Matches(rs[k], topic, partition);
      assert rs[1..][k - 1] == rs[k];
      var j := SplitFirst(rs[1..], topic, partition);
      i := j + 1;
      assert rs[..i] == [rs[0]] + rs[1..][..j];
    }
  }

  lemma ScanEntriesWire(es: seq<Entry>, count: int, rest: seq<byte>, topic: seq<byte>, partition: int32)
    requires Announces(count, |es|)
    ensures var rs := Tagged(topic, es);
            ScanEntries(count, EntriesWire(es) + rest, partition)
            == if NoMatch(rs, topic, partition) then Next(rest) else Done(Lookup(rs, topic, partition))
  {
    hide CursorEntry, EntryWire;
    var rs := Tagged(topic, es);
    if NoMatch(rs, topic, partition) {
      if count >= 0 {
        ScanPastEntries(es, count, rest, topic, partition);
      } else {
        assert EntriesWire(es) + rest == rest;
      }
    } else {
      var i := SplitFirst(rs, topic, partition);
      LookupFirst(rs, i, topic, partition);
      EntriesSplit(es, i);
      assert Tagged(topic, es[..i]) == rs[..i];
      var rest' := EntryWire(es[i]) + (EntriesWire(es[i + 1..]) + rest);
      assert EntriesWire(es) + rest == EntriesWire(es[..i]) + rest';
      ScanPastEntries(es[..i], count, rest', topic, partition);
      ScanHit(es[i], count - i, EntriesWire(es[i + 1..]) + rest);
    }
  }

  lemma {:induction false} EntriesSplit(es: seq<Entry>, i: nat)
    requires i < |es|
    ensures EntriesWire(es) == EntriesWire(es[..i]) + (EntryWire(es[i]) + EntriesWire(es[i + 1..]))
  {
    hide EntryWire;
    if i == 0 {
      assert EntriesWire(es[..0]) == [];
    } else {
      EntriesSplit(es[1..], i - 1);
      assert es[..i][1..] == es[1..][..i - 1] && es[1..][i..] == es[i + 1..];
    }
  }

  lemma NameRead(nameField: int16, name: seq<byte>, rest: seq<byte>)
    requires Announces(nameField, |name|)
    ensures CursorString(NameWire(nameField, name) + rest) == Scan(Ok(name), rest)
  {
    Widths();
    CursorPut(2, nameField, name + rest);
    assert NameWire(nameField, name) + rest == Put(2, nameField) + (name + rest);
    assert (name + rest)[..|name|] == name && (name + rest)[|name|..] == rest;
  }

  // A block of the wanted topic: its entries are scanned.
  lemma ScanOwnBlock(nameField: int16, topic: seq<byte>, countField: int32, rest: seq<byte>, partition: int32)
    requires Announces(nameField, |topic|)
    ensures ScanBlock(NameWire(nameField, topic) + (Put(4, countField) + rest), topic, partition)
         == ScanEntries(countField, rest, partition)
  {
    hide CursorString, NameWire, ScanEntries;
    NameRead(nameField, topic, Put(4, countField) + rest);
    Widths();
    CursorPut(4, countField, rest);
  }

  lemma ScanOtherBlock(b: Block, rest: seq<byte>, topic: seq<byte>, partition: int32)
    requires WellFormed(b) && b.name != topic
    ensures ScanBlock(BlockWire(b) + rest, topic, partition) == Next(rest)
  {
    hide CursorString, NameWire, SkipEntry;
    var s := EntriesWire(b.entries) + rest;
    assert BlockWire(b) + rest == NameWire(b.nameField, b.name) + (Put(4, b.countField) + s);
    NameRead(b.nameField, b.name, Put(4, b.countField) + s);
    Widths();
    CursorPut(4, b.countField, s);
    if b.countField >= 0 {
      SkipEntriesWire(b.entries, rest);
    } else {
      assert s == rest;
    }
  }

  lemma ScanBlockWire(b: Block, rest: seq<byte>, topic: seq<byte>, partition: int32)
    requires WellFormed(b)
    ensures var rs := Tagged(b.name, b.entries);
            ScanBlock(BlockWire(b) + rest, topic, partition)
            == if NoMatch(rs, topic, partition) then Next(rest) else Done(Lookup(rs, topic, partition))
  {
    hide ScanBlock, ScanEntries, EntriesWire, NameWire;
    if b.name != topic {
      ScanOtherBlock(b, rest, topic, partition);
    } else {
      var s := EntriesWire(b.entries) + rest;
      assert BlockWire(b) + rest == NameWire(b.nameField, b.name) + (Put(4, b.countField) + s);
      ScanOwnBlock(b.nameField, topic, b.countField, s, partition);
      ScanEntriesWire(b.entries, b.countField, rest, topic, partition);
    }
  }

  // Well-formed blocks without a match are passed, however many more are announced.
  lemma {:induction false} ScanPastBlocks(
      bs: seq<Block>, count: int, rest: seq<byte>, topic: seq<byte>, partition: int32)
    requires count >= |bs| && forall b :: b in bs ==> WellFormed(b)
    requires NoMatch(Records(bs), topic, partition)
    ensures ScanTopics(count, BlocksWire(bs) + rest, topic, partition)
         == ScanTopics(count - |bs|, rest, topic, partition)
  {
    hide ScanBlock, BlockWire, WellFormed;
    if bs == [] {
      assert BlocksWire(bs) + rest == rest;
    } else {
      var rest' := BlocksWire(bs[1..]) + rest;
      assert BlocksWire(bs) + rest == BlockWire(bs[0]) + rest';
      NoMatchSplit(Tagged(bs[0].name, bs[0].entries), Records(bs[1..]), topic, partition);
      ScanBlockWire(bs[0], rest', topic, partition);
      ScanPastBlocks(bs[1..], count - 1, rest, topic, partition);
    }
  }

  lemma NoMatchSplit(a: seq<Record>, b: seq<Record>, topic: seq<byte>, partition: int32)
    ensures NoMatch(a + b, topic, partition) <==> NoMatch(a, topic, partition) && NoMatch(b, topic, partition)
  {
    if NoMatch(a + b, topic, partition) {
      forall i | 0 <= i < |a| ensures !Matches(a[i], topic, partition) { assert (a + b)[i] == a[i]; }
      forall i | 0 <= i < |b| ensures !Matches(b[i], topic, partition) { assert (a + b)[|a| + i] == b[i]; }
    }
  }

  lemma {:induction false} ScanTopicsWire(
      bs: seq<Block>, count: int, rest: seq<byte>, topic: seq<byte>, partition: int32)
    requires Announces(count, |bs|) && forall b :: b in bs ==> WellFormed(b)
    ensures ScanTopics(count, BlocksWire(bs) + rest, topic, partition) == Lookup(Records(bs), topic, partition)
    decreases |bs|
  {
    hide ScanBlock, BlockWire, WellFormed;
    if bs != [] {
      var rest' := BlocksWire(bs[1..]) + rest;
      var rs := Tagged(bs[0].name, bs[0].entries);
      assert BlocksWire(bs) + rest == BlockWire(bs[0]) + rest';
      ScanBlockWire(bs[0], rest', topic, partition);
      LookupAppend(rs, Records(bs[1..]), topic, partition);
      ScanTopicsWire(bs[1..], count - 1, rest, topic, partition);
    }
  }

  function ReplyWire(corr: int32, countField: int32, topics: seq<byte>): seq<byte> {
    Put(4, corr) + (Put(4, countField) + topics)
  }

  lemma ScanReplyHead(
      corr: int32, got: int32, countField: int32, topics: seq<byte>, topic: seq<byte>, partition: int32)
    ensures ScanReply(ReplyWire(got, countField, topics), corr, topic, partition)
         == if got != corr then Err(CorrelationMismatch(got, corr))
            else ScanTopics(countField, topics, topic, partition)
  {
    hide ScanTopics;
    Widths();
    CursorPut(4, got, Put(4, countField) + topics);
    CursorPut(4, countField, topics);
  }

  // For every reply with this correlation id that is a list of topic blocks and then any
  // bytes, Produce's nested loops return what looking up the first matching record does.
  lemma ScanIsLookup(
      corr: int32, countField: int32, bs: seq<Block>, trailing: seq<byte>, topic: seq<byte>, partition: int32)
    requires Announces(countField, |bs|) && forall b :: b in bs ==> WellFormed(b)
    ensures ScanReply(ReplyWire(corr, countField, BlocksWire(bs) + trailing), corr, topic, partition)
         == Lookup(Records(bs), topic, partition)
  {
    hide ScanTopics, ScanReply;
    ScanReplyHead(corr, corr, countField, BlocksWire(bs) + trailing, topic, partition);
    ScanTopicsWire(bs, countField, trailing, topic, partition);
  }

  // ----- Nothing but a genuine entry is reported -----

  // The result of finding an entry, as opposed to a parse error or a missing entry.
  predicate IsAnswer(r: Result<int64>) {
    r.Ok? || r.error.ProduceError?
  }

  // A matching entry inside a possibly unfinished reply: what was passed on the way to it.
  datatype Path = Path(
    countField: int32, before: seq<Block>, nameField: int16, partField: int32,
    earlier: seq<Entry>, hit: Entry, after: seq<byte>)

  function OwnBlockWire(p: Path, topic: seq<byte>): seq<byte> {
    NameWire(p.nameField, topic)
    + (Put(4, p.partField) + (EntriesWire(p.earlier) + (EntryWire(p.hit) + p.after)))
  }

  ghost predicate OwnBlock(p: Path, s: seq<byte>, topic: seq<byte>, partition: int32) {
    && Announces(p.nameField, |topic|)
    && |p.earlier| < p.partField && NoMatch(Tagged(topic, p.earlier), topic, partition)
    && p.hit.partition == partition
    && s == OwnBlockWire(p, topic)
  }

  // Behind whole blocks without a match, fewer than announced, there is an unfinished
  // block of the topic with the hit as its first match, wholly inside s.
  ghost predicate Topics(p: Path, count: int, s: seq<byte>, topic: seq<byte>, partition: int32) {
    && |p.before| < count && (forall b :: b in p.before ==> WellFormed(b))
    && NoMatch(Records(p.before), topic, partition)
    && exists own :: OwnBlock(p, own, topic, partition) && s == BlocksWire(p.before) + own
  }

  ghost predicate Reaches(p: Path, resp: seq<byte>, corr: int32, topic: seq<byte>, partition: int32) {
    exists topics :: resp == ReplyWire(corr, p.countField, topics) && Topics(p, p.countField, topics, topic, partition)
  }

  lemma ReachesScanned(p: Path, resp: seq<byte>, corr: int32, topic: seq<byte>, partition: int32)
    requires Reaches(p, resp, corr, topic, partition)
    ensures ScanReply(resp, corr, topic, partition) == Answer(p.hit)
  {
    hide ScanReply, ScanTopics, ReplyWire, OwnBlock, WellFormed;
    var topics :| resp == ReplyWire(corr, p.countField, topics) && Topics(p, p.countField, topics, topic, partition);
    ScanReplyHead(corr, corr, p.countField, topics, topic, partition);
    var own :| OwnBlock(p, own, topic, partition) && topics == BlocksWire(p.before) + own;
    ScanPastBlocks(p.before, p.countField, own, topic, partition);
    OwnBlockScanned(p, own, p.countField - |p.before|, topic, partition);
  }

  lemma OwnBlockScanned(p: Path, s: seq<byte>, count: int, topic: seq<byte>, partition: int32)
    requires OwnBlock(p, s, topic, partition) && count > 0
    ensures ScanTopics(count, s, topic, partition) == Answer(p.hit)
  {
    hide ScanBlock, ScanEntries, NameWire, EntriesWire, EntryWire;
    var rest' := EntryWire(p.hit) + p.after;
    ScanOwnBlock(p.nameField, topic, p.partField, EntriesWire(p.earlier) + rest', partition);
    ScanPastEntries(p.earlier, p.partField, rest', topic, partition);
    ScanHit(p.hit, p.partField - |p.earlier|, p.after);
  }

  // Reading back.

  lemma EntryFound(s: seq<byte>)
    requires CursorEntry(s).res.Ok?
    ensures s == EntryWire(CursorEntry(s).res.value) + CursorEntry(s).rest
  {
    hide CursorInt, Put;
    var c1 := CursorInt32(s);
    var c2 := CursorInt16(c1.rest);
    IntMoves(4, s);
    IntMoves(2, c1.rest);
    IntMoves(8, c2.rest);
  }

  // Where the parts of an entry lie.
  lemma EntryFields(s: seq<byte>)
    requires |s| >= 14
    ensures CursorEntry(s).res.Ok? && CursorEntry(s).rest == s[14..]
    ensures var e := CursorEntry(s).res.value;
            e.partition == Get(s[..4]) && e.code == Get(s[4..6]) && e.offset == Get(s[6..14])
  {
    assert s[4..][..2] == s[4..6] && s[4..][2..] == s[6..];
    assert s[6..][..8] == s[6..14] && s[6..][8..] == s[14..];
  }

  // What a skip of one entry leaves of each length: 14 bytes go if they are there;
  // otherwise each of the three reads goes if it can.
  lemma SkipLeaves(s: seq<byte>)
    ensures SkipEntry(s) == s[(if |s| >= 14 then 14 else if |s| >= 6 then 6 else if |s| >= 4 then 4
                               else if |s| >= 2 then 2 else 0)..]
  {
    if |s| >= 4 {
      assert |s| >= 6 ==> s[4..][2..] == s[6..];
      assert |s| >= 14 ==> s[6..][8..] == s[14..];
    }
  }

  lemma {:induction false} EntriesFound(
      count: int, s: seq<byte>, topic: seq<byte>, partition: int32)
    returns (es: seq<Entry>)
    requires ScanEntries(count, s, partition).Next?
    ensures Announces(count, |es|) && NoMatch(Tagged(topic, es), topic, partition)
    ensures s == EntriesWire(es) + ScanEntries(count, s, partition).rest
    decreases count
  {
    hide CursorEntry, EntryWire;
    if count <= 0 {
      es := [];
    } else {
      var c := CursorEntry(s);
      EntryFound(s);
      var es' := EntriesFound(count - 1, c.rest, topic, partition);
      es := [c.res.value] + es';
      TaggedCons(topic, c.res.value, es');
      NoMatchSplit([Record(topic, c.res.value)], Tagged(topic, es'), topic, partition);
    }
  }

  lemma TaggedCons(topic: seq<byte>, e: Entry, es: seq<Entry>)
    ensures Tagged(topic, [e] + es) == [Record(topic, e)] + Tagged(topic, es)
  {}

  lemma {:induction false} HitFound(count: int, s: seq<byte>, topic: seq<byte>, partition: int32, r: Result<int64>)
    returns (earlier: seq<Entry>, hit: Entry, after: seq<byte>)
    requires ScanEntries(count, s, partition) == Done(r) && IsAnswer(r)
    ensures |earlier| < count && NoMatch(Tagged(topic, earlier), topic, partition)
    ensures hit.partition == partition && Answer(hit) == r
    ensures s == EntriesWire(earlier) + (EntryWire(hit) + after)
    decreases count
  {
    hide EntryWire;
    EntryErrors(s);
    hide CursorEntry;
    var c := CursorEntry(s);
    EntryFound(s);
    if c.res.value.partition == partition {
      earlier, hit, after := [], c.res.value, c.rest;
    } else {
      var es: seq<Entry>;
      es, hit, after := HitFound(count - 1, c.rest, topic, partition, r);
      earlier := [c.res.value] + es;
      TaggedCons(topic, c.res.value, es);
      NoMatchSplit([Record(topic, c.res.value)], Tagged(topic, es), topic, partition);
    }
  }

  lemma EntryErrors(s: seq<byte>)
    ensures CursorEntry(s).res.Err? ==> CursorEntry(s).res.error == UnexpectedEOF
    ensures CursorEntry(s).res.Ok? <==> |s| >= 14
  {}

  // A skip that fails leaves fewer than 8 bytes ...
  lemma SkipEntryShort(s: seq<byte>)
    ensures |s| < 14 ==> |SkipEntry(s)| < 8
    ensures |SkipEntry(s)| <= |s|
  {}

  lemma {:induction false} SkipFound(count: int, s: seq<byte>) returns (es: seq<Entry>)
    requires |SkipEntries(count, s)| >= 8
    ensures Announces(count, |es|) && s == EntriesWire(es) + SkipEntries(count, s)
    decreases count
  {
    hide EntryWire, CursorEntry, SkipEntry;
    if count <= 0 {
      es := [];
    } else {
      if |s| < 14 {
        SkipEntryShort(s);
        SkipShrinks(count - 1, SkipEntry(s));
      }
      EntryErrors(s);
      SkipIsEntry(s);
      EntryFound(s);
      var es' := SkipFound(count - 1, SkipEntry(s));
      es := [CursorEntry(s).res.value] + es';
    }
  }

  lemma {:induction false} SkipShrinks(count: int, s: seq<byte>)
    ensures |SkipEntries(count, s)| <= |s|
    decreases count
  {
    hide SkipEntry;
    if count > 0 {
      SkipEntryShort(s);
      SkipShrinks(count - 1, SkipEntry(s));
    }
  }

  // ... while a block with a matching entry takes at least 20.
  lemma ShortBlock(s: seq<byte>, topic: seq<byte>, partition: int32)
    requires |s| < 20
    ensures var p := ScanBlock(s, topic, partition);
            if p.Done? then !IsAnswer(p.result) else |p.rest| < 20
  {
    hide CursorEntry, SkipEntry;
    var t := CursorString(s);
    if t.res.Ok? {
      var c := CursorInt32(t.rest);
      if t.res.value != topic {
        SkipShrinks(if c.res.Ok? then c.res.value else 0, c.rest);
      } else if c.res.Ok? {
        ShortEntries(c.res.value, c.rest, partition);
      }
    }
  }

  lemma ShortEntries(count: int, s: seq<byte>, partition: int32)
    requires |s| < 14
    ensures var p := ScanEntries(count, s, partition);
            if p.Done? then !IsAnswer(p.result) else p.rest == s
  {
    EntryErrors(s);
  }

  lemma {:induction false} ShortTopics(count: int, s: seq<byte>, topic: seq<byte>, partition: int32)
    requires |s| < 20
    ensures !IsAnswer(ScanTopics(count, s, topic, partition))
    decreases count
  {
    hide ScanBlock;
    if count > 0 {
      ShortBlock(s, topic, partition);
      var p := ScanBlock(s, topic, partition);
      if p.Next? {
        ShortTopics(count - 1, p.rest, topic, partition);
      }
    }
  }

  // A string read back, with the length field it came with.
  lemma NameFound(s: seq<byte>) returns (nameField: int16)
    requires CursorString(s).res.Ok?
    ensures var name := CursorString(s).res.value;
            Announces(nameField, |name|) && s == NameWire(nameField, name) + CursorString(s).rest
  {
    hide CursorInt, Put;
    IntMoves(2, s);
    nameField := CursorInt16(s).res.value;
  }

  lemma CountFound(s: seq<byte>)
    requires CursorInt32(s).res.Ok?
    ensures s == Put(4, CursorInt32(s).res.value) + CursorInt32(s).rest
  {
    IntMoves(4, s);
  }

  // A block the scan passes, leaving 8 bytes or more, parsed completely and holds no match.
  lemma BlockFound(s: seq<byte>, topic: seq<byte>, partition: int32) returns (b: Block)
    requires ScanBlock(s, topic, partition).Next? && |ScanBlock(s, topic, partition).rest| >= 8
    ensures WellFormed(b) && NoMatch(Tagged(b.name, b.entries), topic, partition)
    ensures s == BlockWire(b) + ScanBlock(s, topic, partition).rest
  {
    PassedBlock(s, topic, partition);
    var t := CursorString(s);
    var c := CursorInt32(t.rest);
    var rest := ScanBlock(s, topic, partition).rest;
    hide ScanBlock, CursorInt32, CursorInt, CursorString, CursorEntry, SkipEntry;
    hide EntryWire, NameWire, EntriesWire, BlockWire, Put, Get;
    var name := t.res.value;
    var nameField := NameFound(s);
    CountFound(t.rest);
    var n := c.res.value;
    var es: seq<Entry>;
    if name != topic {
      es := SkipFound(n, c.rest);
    } else {
      es := EntriesFound(n, c.rest, topic, partition);
    }
    b := Block(nameField, name, n, es);
    BlockJoined(b, s, t.rest, c.rest, rest);
  }

  lemma BlockJoined(b: Block, s: seq<byte>, s1: seq<byte>, s2: seq<byte>, rest: seq<byte>)
    requires s == NameWire(b.nameField, b.name) + s1
    requires s1 == Put(4, b.countField) + s2 && s2 == EntriesWire(b.entries) + rest
    ensures s == BlockWire(b) + rest
  {
    hide NameWire, EntriesWire, Put;
  }

  lemma PassedBlock(s: seq<byte>, topic: seq<byte>, partition: int32)
    requires ScanBlock(s, topic, partition).Next? && |ScanBlock(s, topic, partition).rest| >= 8
    ensures var t := CursorString(s);
            var c := CursorInt32(t.rest);
            var p := ScanBlock(s, topic, partition);
            && t.res.Ok? && c.res.Ok?
            && (t.res.value != topic ==> p == Next(SkipEntries(c.res.value, c.rest)))
            && (t.res.value == topic ==> p == ScanEntries(c.res.value, c.rest, partition))
  {
    hide CursorString, SkipEntry, ScanEntries;
  }

  lemma OwnBlockFound(s: seq<byte>, topic: seq<byte>, partition: int32, r: Result<int64>) returns (p: Path)
    requires ScanBlock(s, topic, partition) == Done(r) && IsAnswer(r)
    ensures p.before == [] && OwnBlock(p, s, topic, partition) && Answer(p.hit) == r
  {
    BlockErrors(s, topic, partition);
    var t := CursorString(s);
    var nameField := NameFound(s);
    var c := CursorInt32(t.rest);
    hide CursorString, CursorEntry, EntryWire, NameWire, EntriesWire;
    CountFound(t.rest);
    var earlier, hit, after := HitFound(c.res.value, c.rest, topic, partition, r);
    p := Path(0, [], nameField, c.res.value, earlier, hit, after);
    assert s == OwnBlockWire(p, topic);
  }

  lemma BlockErrors(s: seq<byte>, topic: seq<byte>, partition: int32)
    requires ScanBlock(s, topic, partition).Done? && IsAnswer(ScanBlock(s, topic, partition).result)
    ensures var t := CursorString(s);
            t.res == Ok(topic) && CursorInt32(t.rest).res.Ok?
  {}

  lemma {:induction false} TopicsFound(count: int, s: seq<byte>, topic: seq<byte>, partition: int32) returns (p: Path)
    requires IsAnswer(ScanTopics(count, s, topic, partition))
    ensures Topics(p, count, s, topic, partition) && Answer(p.hit) == ScanTopics(count, s, topic, partition)
    decreases count
  {
    hide ScanBlock, OwnBlock, BlockWire, WellFormed;
    var step := ScanBlock(s, topic, partition);
    if step.Done? {
      p := OwnBlockFound(s, topic, partition, step.result);
      assert OwnBlock(p, s, topic, partition) && s == BlocksWire(p.before) + s;
    } else {
      if |step.rest| < 8 {
        ShortTopics(count - 1, step.rest, topic, partition);
      }
      var b := BlockFound(s, topic, partition);
      var q := TopicsFound(count - 1, step.rest, topic, partition);
      p := q.(before := [b] + q.before);
      var own :| OwnBlock(q, own, topic, partition) && step.rest == BlocksWire(q.before) + own;
      OwnBlockFrame(q, p, own, topic, partition);
      NoMatchSplit(Tagged(b.name, b.entries), Records(q.before), topic, partition);
      assert s == BlocksWire(p.before) + own;
    }
  }

  lemma OwnBlockFrame(q: Path, p: Path, own: seq<byte>, topic: seq<byte>, partition: int32)
    requires OwnBlock(q, own, topic, partition)
    requires p == q.(before := p.before, countField := p.countField)
    ensures OwnBlock(p, own, topic, partition)
  {}

  lemma ScannedReaches(resp: seq<byte>, corr: int32, topic: seq<byte>, partition: int32) returns (p: Path)
    requires IsAnswer(ScanReply(resp, corr, topic, partition))
    ensures Reaches(p, resp, corr, topic, partition) && Answer(p.hit) == ScanReply(resp, corr, topic, partition)
  {
    hide ScanTopics, OwnBlock, WellFormed;
    var c := CursorInt32(resp);
    CountFound(resp);
    CountFound(c.rest);
    var n := CursorInt32(c.rest);
    var topics := n.rest;
    var q := TopicsFound(n.res.value, topics, topic, partition);
    p := q.(countField := n.res.value);
    var own :| OwnBlock(q, own, topic, partition) && topics == BlocksWire(q.before) + own;
    OwnBlockFrame(q, p, own, topic, partition);
    assert Topics(p, p.countField, topics, topic, partition);
    assert resp == ReplyWire(corr, p.countField, topics);
  }

  // For every byte sequence: Produce returns an offset exactly when the reply carries the
  // correlation id, then whole topic blocks without a match, then a block of the topic
  // whose first entry for the partition lies wholly inside the frame and holds code 0 and
  // that offset.  Dropped read errors never turn a damaged reply into a success.
  lemma SuccessIsGenuine(resp: seq<byte>, corr: int32, topic: seq<byte>, partition: int32, offset: int64)
    ensures ScanReply(resp, corr, topic, partition) == Ok(offset) <==>
              exists p :: Reaches(p, resp, corr, topic, partition) && p.hit == Entry(partition, 0, offset)
  {
    hide ScanReply, Reaches;
    if ScanReply(resp, corr, topic, partition) == Ok(offset) {
      var p := ScannedReaches(resp, corr, topic, partition);
      HitPartition(p, resp, corr, topic, partition);
    }
    forall p | Reaches(p, resp, corr, topic, partition) && p.hit == Entry(partition, 0, offset)
      ensures ScanReply(resp, corr, topic, partition) == Ok(offset)
    {
      ReachesScanned(p, resp, corr, topic, partition);
    }
  }

  // Likewise for a broker error: it is the code of such an entry.
  lemma BrokerErrorIsGenuine(resp: seq<byte>, corr: int32, topic: seq<byte>, partition: int32, code: int)
    ensures ScanReply(resp, corr, topic, partition) == Err(ProduceError(code)) <==>
              exists p :: Reaches(p, resp, corr, topic, partition) && p.hit.code == code != 0
  {
    hide ScanReply, Reaches;
    if ScanReply(resp, corr, topic, partition) == Err(ProduceError(code)) {
      var p := ScannedReaches(resp, corr, topic, partition);
    }
    forall p | Reaches(p, resp, corr, topic, partition) && p.hit.code == code != 0
      ensures ScanReply(resp, corr, topic, partition) == Err(ProduceError(code))
    {
      ReachesScanned(p, resp, corr, topic, partition);
    }
  }

  lemma HitPartition(p: Path, resp: seq<byte>, corr: int32, topic: seq<byte>, partition: int32)
    requires Reaches(p, resp, corr, topic, partition)
    ensures p.hit.partition == partition
  {}

  // ----- When an entry is reported missing -----

  // A block of another topic that the reply ends inside: its count is cut, or fewer
  // entries follow than it announces.  Skipping it leaves `rest`.
  ghost predicate Truncated(s: seq<byte>, topic: seq<byte>, rest: seq<byte>) {
    exists nameField: int16, name, s1 ::
      && Announces(nameField, |name|) && name != topic
      && s == NameWire(nameField, name) + s1 && CutShort(s1, rest)
  }

  ghost predicate CutShort(s1: seq<byte>, rest: seq<byte>) {
    || (|s1| < 4 && rest == s1)
    || (exists n: int32, s2 :: s1 == Put(4, n) + s2 && |s2| < 14 * n && rest == SkipEntries(n, s2))
  }

  // A whole block without a match.
  ghost predicate Whole(b: Block, topic: seq<byte>, partition: int32) {
    WellFormed(b) && NoMatch(Tagged(b.name, b.entries), topic, partition)
  }

  // The scan gets past the block at the front of s: it is whole and holds no match, or it
  // is a truncated block of another topic.
  ghost predicate Passed(s: seq<byte>, topic: seq<byte>, partition: int32, rest: seq<byte>) {
    (exists b :: Whole(b, topic, partition) && s == BlockWire(b) + rest) || Truncated(s, topic, rest)
  }

  lemma {:induction false} SkipWhole(count: int, s: seq<byte>) returns (es: seq<Entry>)
    requires 14 * count <= |s|
    ensures Announces(count, |es|) && s == EntriesWire(es) + SkipEntries(count, s)
    decreases count
  {
    hide EntryWire, CursorEntry, SkipEntry;
    if count <= 0 {
      es := [];
    } else {
      EntryErrors(s);
      SkipIsEntry(s);
      EntryFound(s);
      EntryLength(CursorEntry(s).res.value);
      var es' := SkipWhole(count - 1, SkipEntry(s));
      es := [CursorEntry(s).res.value] + es';
    }
  }

  lemma EntryLength(e: Entry)
    ensures |EntryWire(e)| == 14
  {}

  lemma {:induction false} EntriesLength(es: seq<Entry>)
    ensures |EntriesWire(es)| == 14 * |es|
  {
    hide EntryWire;
    if es != [] {
      EntryLength(es[0]);
      EntriesLength(es[1..]);
    }
  }

  // What skipping a truncated block leaves is less than any entry needs.
  lemma {:induction false} SkipCut(count: int, s: seq<byte>)
    requires |s| < 14 * count
    ensures |SkipEntries(count, s)| < 8
    decreases count
  {
    hide SkipEntry;
    SkipEntryShort(s);
    if |s| < 14 {
      SkipShrinks(count - 1, SkipEntry(s));
    } else {
      SkipEntryLong(s);
      SkipCut(count - 1, SkipEntry(s));
    }
  }

  lemma SkipEntryLong(s: seq<byte>)
    requires |s| >= 14
    ensures |SkipEntry(s)| == |s| - 14
  {}

  lemma TruncatedLeaves(s: seq<byte>, topic: seq<byte>, rest: seq<byte>)
    requires Truncated(s, topic, rest)
    ensures |rest| < 8
  {
    hide NameWire;
    var nameField: int16, name, s1 :|
      Announces(nameField, |name|) && name != topic && s == NameWire(nameField, name) + s1 && CutShort(s1, rest);
    if |s1| >= 4 {
      var n: int32, s2 :| s1 == Put(4, n) + s2 && |s2| < 14 * n && rest == SkipEntries(n, s2);
      SkipCut(n, s2);
    }
  }

  lemma OtherBlockScanned(nameField: int16, name: seq<byte>, s1: seq<byte>, topic: seq<byte>, partition: int32)
    requires Announces(nameField, |name|) && name != topic
    ensures var c := CursorInt32(s1);
            ScanBlock(NameWire(nameField, name) + s1, topic, partition)
            == Next(SkipEntries(if c.res.Ok? then c.res.value else 0, c.rest))
  {
    hide CursorString, NameWire, SkipEntries;
    NameRead(nameField, name, s1);
  }

  lemma TruncatedScanned(s: seq<byte>, topic: seq<byte>, partition: int32, rest: seq<byte>)
    requires Truncated(s, topic, rest)
    ensures ScanBlock(s, topic, partition) == Next(rest)
  {
    hide ScanBlock, NameWire, SkipEntry;
    var nameField: int16, name, s1 :|
      Announces(nameField, |name|) && name != topic && s == NameWire(nameField, name) + s1 && CutShort(s1, rest);
    OtherBlockScanned(nameField, name, s1, topic, partition);
    if |s1| >= 4 {
      var n: int32, s2 :| s1 == Put(4, n) + s2 && |s2| < 14 * n && rest == SkipEntries(n, s2);
      Widths();
      CursorPut(4, n, s2);
    }
  }

  // The scan passes a block in no other way.
  lemma PassedIff(s: seq<byte>, topic: seq<byte>, partition: int32, rest: seq<byte>)
    ensures ScanBlock(s, topic, partition) == Next(rest) <==> Passed(s, topic, partition, rest)
  {
    hide ScanBlock, BlockWire, WellFormed;
    if ScanBlock(s, topic, partition) == Next(rest) {
      PassedFound(s, topic, partition);
    }
    forall b | Whole(b, topic, partition) && s == BlockWire(b) + rest
      ensures ScanBlock(s, topic, partition) == Next(rest)
    {
      ScanBlockWire(b, rest, topic, partition);
    }
    if Truncated(s, topic, rest) {
      TruncatedScanned(s, topic, partition, rest);
    }
  }

  lemma PassedFound(s: seq<byte>, topic: seq<byte>, partition: int32)
    requires ScanBlock(s, topic, partition).Next?
    ensures Passed(s, topic, partition, ScanBlock(s, topic, partition).rest)
  {
    var t := CursorString(s);
    var nameField := NameFound(s);
    var name, rest := t.res.value, ScanBlock(s, topic, partition).rest;
    var c := CursorInt32(t.rest);
    if name == topic {
      OwnPassed(s, topic, partition);
    } else if c.res.Err? {
      assert CutShort(t.rest, rest);
    } else {
      CountFound(t.rest);
      ForeignPassed(nameField, name, c.res.value, c.rest, topic, partition);
    }
  }

  lemma OwnPassed(s: seq<byte>, topic: seq<byte>, partition: int32)
    requires ScanBlock(s, topic, partition).Next? && CursorString(s).res == Ok(topic)
    ensures Passed(s, topic, partition, ScanBlock(s, topic, partition).rest)
  {
    var t := CursorString(s);
    var c := CursorInt32(t.rest);
    var rest := ScanBlock(s, topic, partition).rest;
    assert c.res.Ok? && ScanEntries(c.res.value, c.rest, partition) == Next(rest);
    hide ScanBlock, CursorInt32, CursorInt, CursorString, CursorEntry, EntryWire, NameWire, EntriesWire, BlockWire, Put;
    var nameField := NameFound(s);
    CountFound(t.rest);
    var es := EntriesFound(c.res.value, c.rest, topic, partition);
    var b := Block(nameField, topic, c.res.value, es);
    BlockJoined(b, s, t.rest, c.rest, rest);
    assert Whole(b, topic, partition);
  }

  lemma ForeignPassed(nameField: int16, name: seq<byte>, n: int32, s2: seq<byte>, topic: seq<byte>, partition: int32)
    requires Announces(nameField, |name|) && name != topic
    ensures Passed(NameWire(nameField, name) + (Put(4, n) + s2), topic, partition, SkipEntries(n, s2))
  {
    hide NameWire, Put, EntryWire, SkipEntry, EntriesWire;
    var s := NameWire(nameField, name) + (Put(4, n) + s2);
    var rest := SkipEntries(n, s2);
    if 14 * n <= |s2| {
      var es := SkipWhole(n, s2);
      var b := Block(nameField, name, n, es);
      BlockJoined(b, s, Put(4, n) + s2, s2, rest);
      assert Whole(b, topic, partition);
    } else {
      assert CutShort(Put(4, n) + s2, rest);
    }
  }

  // Every announced block is passed.
  ghost predicate AllPassed(count: int, s: seq<byte>, topic: seq<byte>, partition: int32)
    decreases count
  {
    count <= 0 || exists rest :: Passed(s, topic, partition, rest) && AllPassed(count - 1, rest, topic, partition)
  }

  lemma {:induction false} MissingPassed(count: int, s: seq<byte>, topic: seq<byte>, partition: int32)
    ensures ScanTopics(count, s, topic, partition) == Err(MissingFromResponse)
       <==> AllPassed(count, s, topic, partition)
    decreases count
  {
    if count > 0 {
      hide ScanBlock, Passed;
      var p := ScanBlock(s, topic, partition);
      BlockNotMissing(s, topic, partition);
      if p.Next? {
        PassedIff(s, topic, partition, p.rest);
        MissingPassed(count - 1, p.rest, topic, partition);
      }
      forall rest | Passed(s, topic, partition, rest) ensures p == Next(rest) {
        PassedIff(s, topic, partition, rest);
      }
    }
  }

  lemma BlockNotMissing(s: seq<byte>, topic: seq<byte>, partition: int32)
    ensures var p := ScanBlock(s, topic, partition);
            p.Done? ==> IsAnswer(p.result) || p.result == Err(UnexpectedEOF)
  {
    hide CursorEntry, SkipEntries;
    var c := CursorInt32(CursorString(s).rest);
    if c.res.Ok? {
      EntriesNotMissing(c.res.value, c.rest, partition);
    }
  }

  lemma {:induction false} EntriesNotMissing(count: int, s: seq<byte>, partition: int32)
    ensures var p := ScanEntries(count, s, partition);
            p.Done? ==> IsAnswer(p.result) || p.result == Err(UnexpectedEOF)
    decreases count
  {
    EntryErrors(s);
    hide CursorEntry;
    if count > 0 {
      EntriesNotMissing(count - 1, CursorEntry(s).rest, partition);
    }
  }

  // Whole blocks without a match lead s, and tail follows them.
  ghost predicate Clear(bs: seq<Block>, s: seq<byte>, tail: seq<byte>, topic: seq<byte>, partition: int32) {
    && (forall b :: b in bs ==> WellFormed(b))
    && NoMatch(Records(bs), topic, partition) && s == BlocksWire(bs) + tail
  }

  // Genuinely missing: all announced blocks are there, whole, and none holds a match.
  ghost predicate Absent(count: int, s: seq<byte>, topic: seq<byte>, partition: int32) {
    exists bs, trailing :: Announces(count, |bs|) && Clear(bs, s, trailing, topic, partition)
  }

  // Missing by damage: behind whole blocks without a match, fewer than announced, the reply
  // ends inside a block of another topic, and the fewer than 8 bytes its skip leaves let
  // every further announced block be passed too (there may be none).
  ghost predicate CutOff(count: int, s: seq<byte>, topic: seq<byte>, partition: int32) {
    exists bs, cut, left :: Clear(bs, s, cut, topic, partition) && Cut(count, |bs|, cut, left, topic, partition)
  }

  ghost predicate Cut(count: int, n: nat, cut: seq<byte>, left: seq<byte>, topic: seq<byte>, partition: int32) {
    && n < count && Truncated(cut, topic, left) && |left| < 8
    && AllPassed(count - n - 1, left, topic, partition)
  }

  lemma ClearNothing(s: seq<byte>, topic: seq<byte>, partition: int32)
    ensures Clear([], s, s, topic, partition)
  {
    assert s == BlocksWire([]) + s;
  }

  lemma ClearOneMore(b: Block, bs: seq<Block>, s: seq<byte>, rest: seq<byte>, tail: seq<byte>,
                     topic: seq<byte>, partition: int32)
    requires Whole(b, topic, partition) && s == BlockWire(b) + rest && Clear(bs, rest, tail, topic, partition)
    ensures Clear([b] + bs, s, tail, topic, partition)
  {
    hide BlockWire, WellFormed;
    assert ([b] + bs)[1..] == bs;
    NoMatchSplit(Tagged(b.name, b.entries), Records(bs), topic, partition);
    assert BlockWire(b) + (BlocksWire(bs) + tail) == BlocksWire([b] + bs) + tail;
  }

  lemma {:induction false} PassedSplit(count: int, s: seq<byte>, topic: seq<byte>, partition: int32)
    requires AllPassed(count, s, topic, partition)
    ensures Absent(count, s, topic, partition) || CutOff(count, s, topic, partition)
    decreases count
  {
    hide Truncated, BlockWire, WellFormed, Clear;
    ClearNothing(s, topic, partition);
    if count <= 0 {
      assert Announces(count, 0);
    } else {
      var rest :| Passed(s, topic, partition, rest) && AllPassed(count - 1, rest, topic, partition);
      if Truncated(s, topic, rest) {
        TruncatedLeaves(s, topic, rest);
        var none: seq<Block> := [];
        assert Cut(count, |none|, s, rest, topic, partition);
      } else {
        var b :| Whole(b, topic, partition) && s == BlockWire(b) + rest;
        hide Whole, AllPassed, Absent, CutOff;
        PassedSplit(count - 1, rest, topic, partition);
        OneMoreBlock(b, count, s, rest, topic, partition);
      }
    }
  }

  lemma OneMoreBlock(b: Block, count: int, s: seq<byte>, rest: seq<byte>, topic: seq<byte>, partition: int32)
    requires count > 0 && Whole(b, topic, partition) && s == BlockWire(b) + rest
    ensures Absent(count - 1, rest, topic, partition) ==> Absent(count, s, topic, partition)
    ensures CutOff(count - 1, rest, topic, partition) ==> CutOff(count, s, topic, partition)
  {
    hide BlockWire, Whole, Clear, Truncated, AllPassed;
    if Absent(count - 1, rest, topic, partition) {
      var bs, trailing :| Announces(count - 1, |bs|) && Clear(bs, rest, trailing, topic, partition);
      ClearOneMore(b, bs, s, rest, trailing, topic, partition);
      assert Announces(count, |[b] + bs|);
    }
    if CutOff(count - 1, rest, topic, partition) {
      var bs, cut, left :|
        Clear(bs, rest, cut, topic, partition) && Cut(count - 1, |bs|, cut, left, topic, partition);
      ClearOneMore(b, bs, s, rest, cut, topic, partition);
      assert Cut(count, |[b] + bs|, cut, left, topic, partition);
    }
  }

  lemma AbsentScanned(count: int, s: seq<byte>, topic: seq<byte>, partition: int32)
    requires Absent(count, s, topic, partition)
    ensures ScanTopics(count, s, topic, partition) == Err(MissingFromResponse)
  {
    hide ScanTopics, WellFormed;
    var bs, trailing :| Announces(count, |bs|) && Clear(bs, s, trailing, topic, partition);
    ScanTopicsWire(bs, count, trailing, topic, partition);
    LookupAppend(Records(bs), [], topic, partition);
    assert Records(bs) + [] == Records(bs);
  }

  lemma CutOffScanned(count: int, s: seq<byte>, topic: seq<byte>, partition: int32)
    requires CutOff(count, s, topic, partition)
    ensures ScanTopics(count, s, topic, partition) == Err(MissingFromResponse)
  {
    hide ScanBlock, Truncated, WellFormed, AllPassed;
    var bs, cut, left :| Clear(bs, s, cut, topic, partition) && Cut(count, |bs|, cut, left, topic, partition);
    ScanPastBlocks(bs, count, cut, topic, partition);
    TruncatedScanned(cut, topic, partition, left);
    MissingPassed(count - |bs| - 1, left, topic, partition);
  }

  // For every byte sequence: Produce reports the entry as missing exactly if the reply
  // carries the correlation id and a count, and then either genuinely lacks the entry or is
  // cut off inside a block of another topic, whose read errors are dropped.
  lemma MissingIff(resp: seq<byte>, corr: int32, topic: seq<byte>, partition: int32)
    ensures ScanReply(resp, corr, topic, partition) == Err(MissingFromResponse) <==>
              exists countField: int32, s :: resp == ReplyWire(corr, countField, s)
                && (Absent(countField, s, topic, partition) || CutOff(countField, s, topic, partition))
  {
    if ScanReply(resp, corr, topic, partition) == Err(MissingFromResponse) {
      var c := CursorInt32(resp);
      var n := CursorInt32(c.rest);
      assert ScanTopics(n.res.value, n.rest, topic, partition) == Err(MissingFromResponse);
      hide ScanReply, ScanTopics, Absent, CutOff, AllPassed;
      CountFound(resp);
      CountFound(c.rest);
      MissingPassed(n.res.value, n.rest, topic, partition);
      PassedSplit(n.res.value, n.rest, topic, partition);
      assert resp == ReplyWire(corr, n.res.value, n.rest);
    }
    hide ScanReply, ScanTopics, Absent, CutOff;
    forall countField: int32, s | resp == ReplyWire(corr, countField, s)
        && (Absent(countField, s, topic, partition) || CutOff(countField, s, topic, partition))
      ensures ScanReply(resp, corr, topic, partition) == Err(MissingFromResponse)
    {
      ScanReplyHead(corr, corr, countField, s, topic, partition);
      if Absent(countField, s, topic, partition) {
        AbsentScanned(countField, s, topic, partition);
      } else {
        CutOffScanned(countField, s, topic, partition);
      }
    }
  }

  // No reply is both: the report is genuine exactly for the first kind.
  lemma AbsentNotCutOff(count: int, s: seq<byte>, topic: seq<byte>, partition: int32)
    ensures !(Absent(count, s, topic, partition) && CutOff(count, s, topic, partition))
  {
    hide Truncated, BlockWire, WellFormed, AllPassed, ScanBlock;
    if Absent(count, s, topic, partition) && CutOff(count, s, topic, partition) {
      var bs, trailing :| Announces(count, |bs|) && Clear(bs, s, trailing, topic, partition);
      var cs, cut, left :| Clear(cs, s, cut, topic, partition) && Cut(count, |cs|, cut, left, topic, partition);
      assert |cs| < |bs|;
      SamePrefix(bs, trailing, cs, cut, topic, partition);
      assert bs[|cs|] in bs;
      hide Clear;
      var rest := BlocksWire(bs[|cs|..][1..]) + trailing;
      assert cut == BlockWire(bs[|cs|]) + rest;
      WholeNotTruncated(bs[|cs|], rest, topic, left);
    }
  }

  // Two ways to cut the same bytes into whole blocks agree as far as both go.
  lemma {:induction false} SamePrefix(
      bs: seq<Block>, x: seq<byte>, cs: seq<Block>, y: seq<byte>, topic: seq<byte>, partition: int32)
    requires |cs| <= |bs| && BlocksWire(bs) + x == BlocksWire(cs) + y
    requires (forall b :: b in bs ==> WellFormed(b)) && NoMatch(Records(bs), topic, partition)
    requires (forall b :: b in cs ==> WellFormed(b)) && NoMatch(Records(cs), topic, partition)
    ensures y == BlocksWire(bs[|cs|..]) + x
  {
    hide BlockWire, WellFormed, ScanBlock;
    if cs == [] {
      assert y == BlocksWire(cs) + y && bs[0..] == bs;
    } else {
      var x', y' := BlocksWire(bs[1..]) + x, BlocksWire(cs[1..]) + y;
      assert BlocksWire(bs) + x == BlockWire(bs[0]) + x' && BlocksWire(cs) + y == BlockWire(cs[0]) + y';
      NoMatchSplit(Tagged(bs[0].name, bs[0].entries), Records(bs[1..]), topic, partition);
      NoMatchSplit(Tagged(cs[0].name, cs[0].entries), Records(cs[1..]), topic, partition);
      ScanBlockWire(bs[0], x', topic, partition);
      ScanBlockWire(cs[0], y', topic, partition);
      SamePrefix(bs[1..], x, cs[1..], y, topic, partition);
      assert bs[1..][|cs| - 1..] == bs[|cs|..];
    }
  }

  lemma WholeNotTruncated(b: Block, rest: seq<byte>, topic: seq<byte>, left: seq<byte>)
    requires WellFormed(b)
    ensures !Truncated(BlockWire(b) + rest, topic, left)
  {
    var s := BlockWire(b) + rest;
    var t := Put(4, b.countField) + (EntriesWire(b.entries) + rest);
    assert s == NameWire(b.nameField, b.name) + t;
    NameRead(b.nameField, b.name, t);
    EntriesLength(b.entries);
    Widths();
    CursorPut(4, b.countField, EntriesWire(b.entries) + rest);
    hide NameWire, CursorString, CursorInt, SkipEntries, EntriesWire, BlockWire;
    if Truncated(s, topic, left) {
      var nameField: int16, name, s1 :|
        Announces(nameField, |name|) && name != topic && s == NameWire(nameField, name) + s1 && CutShort(s1, left);
      NameRead(nameField, name, s1);
      assert s1 == t;
      var n: int32, s2 :| s1 == Put(4, n) + s2 && |s2| < 14 * n && left == SkipEntries(n, s2);
      CursorPut(4, n, s2);
    }
  }

  // The simplest such reply: it ends right behind the name of a foreign block, announced as
  // the only one.
  lemma CutBehindName(corr: int32, name: seq<byte>, topic: seq<byte>, partition: int32)
    requires |name| <= MAX_INT16 && name != topic
    ensures ScanReply(ReplyWire(corr, 1, NameWire(|name|, name)), corr, topic, partition) == Err(MissingFromResponse)
    ensures !Absent(1, NameWire(|name|, name), topic, partition)
  {
    hide ScanTopics, ScanReply, Absent;
    var s := NameWire(|name|, name);
    assert s == NameWire(|name|, name) + [] && CutShort([], []);
    assert Truncated(s, topic, []);
    assert AllPassed(0, [], topic, partition);
    ClearNothing(s, topic, partition);
    var none: seq<Block> := [];
    assert Cut(1, |none|, s, [], topic, partition);
    assert CutOff(1, s, topic, partition);
    CutOffScanned(1, s, topic, partition);
    AbsentNotCutOff(1, s, topic, partition);
    ScanReplyHead(corr, corr, 1, s, topic, partition);
  }

  // The five outcomes of a scan.  A short read is reported exactly if it is none of the
  // other four, each of which has its own condition.
  lemma ScanOutcomes(resp: seq<byte>, corr: int32, topic: seq<byte>, partition: int32)
    ensures var r := ScanReply(resp, corr, topic, partition);
            && (IsAnswer(r) || r == Err(MissingFromResponse) || r == Err(UnexpectedEOF) || r.error.CorrelationMismatch?)
            && (r.Err? && r.error.CorrelationMismatch? <==> |resp| >= 4 && Get(resp[..4]) != corr)
  {
    var n := CursorInt32(CursorInt32(resp).rest);
    if n.res.Ok? {
      TopicsOutcomes(n.res.value, n.rest, topic, partition);
    }
  }

  lemma {:induction false} TopicsOutcomes(count: int, s: seq<byte>, topic: seq<byte>, partition: int32)
    ensures var r := ScanTopics(count, s, topic, partition);
            IsAnswer(r) || r == Err(MissingFromResponse) || r == Err(UnexpectedEOF)
    decreases count
  {
    hide ScanBlock;
    if count > 0 {
      BlockNotMissing(s, topic, partition);
      var p := ScanBlock(s, topic, partition);
      if p.Next? {
        TopicsOutcomes(count - 1, p.rest, topic, partition);
      }
    }
  }
}
