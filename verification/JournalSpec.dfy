/** The write-ahead log as records in blocks, its byte layout, and what a reader gets back. */
module JournalSpec {
  import opened Types
  import opened Bytes
  import opened Sequences
  import opened ByteType

  const BLOCK: nat := 4096    // bytes written at a time
  const HEADER: nat := 18     // sequence number, timestamp, payload length
  const LONGEST: nat := 1024  // a reader takes longer payloads for garbage

  datatype Record = Record(seqNo: u64, timestamp: u64, payload: seq<byte>)

  /** Flushed blocks, and the records still in the buffer. */
  datatype Log = Log(blocks: seq<seq<Record>>, pending: seq<Record>)

  const FRESH := Log([], [])

  // ---------------------------------------------------------------------------------------------------
  // Layout

  function EncodeRecord(r: Record): (b: seq<byte>)
    ensures |b| == HEADER + |r.payload|
  {
    LittleEndian(r.seqNo, 8) + LittleEndian(r.timestamp, 8) + LittleEndian(|r.payload|, 2) + r.payload
  }

  function EncodeRecords(rs: seq<Record>): seq<byte> {
    if rs == [] then [] else EncodeRecord(rs[0]) + EncodeRecords(rs[1..])
  }

  /** A buffer: the records, then zeros up to the block size. */
  function EncodeBlock(rs: seq<Record>): (b: seq<byte>)
    requires |EncodeRecords(rs)| <= BLOCK
    ensures |b| == BLOCK
  {
    EncodeRecords(rs) + Zeros(BLOCK - |EncodeRecords(rs)|)
  }

  /** Records the writer accepts: a non-empty payload that fits a block with its header. */
  predicate Acceptable(payload: seq<byte>) {
    0 < |payload| && HEADER + |payload| <= BLOCK
  }

  ghost predicate BlockOk(rs: seq<Record>) {
    |EncodeRecords(rs)| <= BLOCK && forall i :: 0 <= i < |rs| ==> Acceptable(rs[i].payload)
  }

  ghost predicate LogOk(log: Log) {
    && (forall i :: 0 <= i < |log.blocks| ==> BlockOk(log.blocks[i]) && log.blocks[i] != [])
    && BlockOk(log.pending)
  }

  ghost function EncodeBlocks(blocks: seq<seq<Record>>): seq<byte>
    requires forall i :: 0 <= i < |blocks| ==> BlockOk(blocks[i])
  {
    if blocks == [] then []
    else
      assert BlockOk(blocks[0]);
      EncodeBlock(blocks[0]) + EncodeBlocks(blocks[1..])
  }

  function Concat(blocks: seq<seq<Record>>): seq<Record> {
    if blocks == [] then [] else blocks[0] + Concat(blocks[1..])
  }

  function Flushed(log: Log): seq<Record> {
    Concat(log.blocks)
  }

  function Written(log: Log): seq<Record> {
    Flushed(log) + log.pending
  }

  // ---------------------------------------------------------------------------------------------------
  // The writer

  function Flush(log: Log): Log {
    Log(log.blocks + [log.pending], [])
  }

  function Checkpoint(log: Log): Log {
    if log.pending == [] then log else Flush(log)
  }

  function Append(log: Log, now: u64, payload: seq<byte>): Log {
    log.(pending := log.pending + [Record(Wrap(|Written(log)|), now, payload)])
  }

  function Write(log: Log, now: u64, payload: seq<byte>): Log {
    if |payload| == 0 then log
    else if HEADER + |payload| > BLOCK then Checkpoint(log)
    else if |EncodeRecords(log.pending)| + HEADER + |payload| > BLOCK then Append(Flush(log), now, payload)
    else Append(log, now, payload)
  }

  lemma EncodeCons(rs: seq<Record>)
    requires rs != []
    ensures EncodeRecords(rs) == EncodeRecord(rs[0]) + EncodeRecords(rs[1..])
  {
  }

  lemma {:induction false} EncodeConcat(a: seq<Record>, b: seq<Record>)
    ensures EncodeRecords(a + b) == EncodeRecords(a) + EncodeRecords(b)
  {
    if a == [] {
      assert a + b == b;
    } else {
      hide *;
      EncodeConcat(a[1..], b);
      assert (a + b)[0] == a[0] && (a + b)[1..] == a[1..] + b;
      EncodeCons(a);
      EncodeCons(a + b);
      Associative(EncodeRecord(a[0]), EncodeRecords(a[1..]), EncodeRecords(b));
    }
  }

  lemma EncodePush(rs: seq<Record>, r: Record)
    ensures EncodeRecords(rs + [r]) == EncodeRecords(rs) + EncodeRecord(r)
  {
    EncodeConcat(rs, [r]);
    EncodeOne(r);
  }

  lemma EncodeOne(r: Record)
    ensures EncodeRecords([r]) == EncodeRecord(r)
  {
    hide EncodeRecord;
    assert [r][1..] == [];
    assert EncodeRecord(r) + [] == EncodeRecord(r);
  }

  lemma {:induction false} ConcatPush(blocks: seq<seq<Record>>, rs: seq<Record>)
    ensures Concat(blocks + [rs]) == Concat(blocks) + rs
  {
    var all := blocks + [rs];
    if blocks == [] {
      assert all[1..] == [];
    } else {
      ConcatPush(blocks[1..], rs);
      assert all[0] == blocks[0] && all[1..] == blocks[1..] + [rs];
    }
  }

  lemma {:induction false} EncodeBlocksPush(blocks: seq<seq<Record>>, rs: seq<Record>)
    requires BlockOk(rs) && forall i :: 0 <= i < |blocks| ==> BlockOk(blocks[i])
    ensures EncodeBlocks(blocks + [rs]) == EncodeBlocks(blocks) + EncodeBlock(rs)
  {
    hide EncodeBlock;
    var all := blocks + [rs];
    if blocks == [] {
      assert all[1..] == [] && EncodeBlocks([]) == [];
    } else {
      EncodeBlocksPush(blocks[1..], rs);
      assert all[0] == blocks[0] && all[1..] == blocks[1..] + [rs];
      assert BlockOk(blocks[0]);
      Associative(EncodeBlock(blocks[0]), EncodeBlocks(blocks[1..]), EncodeBlock(rs));
    }
  }

  lemma FlushWrites(log: Log)
    ensures Written(Flush(log)) == Written(log) && Flushed(Flush(log)) == Written(log)
  {
    ConcatPush(log.blocks, log.pending);
    assert Concat(log.blocks) + log.pending + [] == Concat(log.blocks) + log.pending;
  }

  lemma AppendWrites(log: Log, now: u64, payload: seq<byte>)
    requires LogOk(log) && Acceptable(payload) && |EncodeRecords(log.pending)| + HEADER + |payload| <= BLOCK
    ensures var r := Record(Wrap(|Written(log)|), now, payload);
            && LogOk(Append(log, now, payload)) && Written(Append(log, now, payload)) == Written(log) + [r]
            && Append(log, now, payload).pending == log.pending + [r]
            && EncodeRecords(log.pending + [r]) == EncodeRecords(log.pending) + EncodeRecord(r)
    ensures Append(log, now, payload).blocks == log.blocks && Flushed(Append(log, now, payload)) == Flushed(log)
  {
    var r := Record(Wrap(|Written(log)|), now, payload);
    EncodePush(log.pending, r);
    Associative(Flushed(log), log.pending, [r]);
    hide EncodeRecords, EncodeRecord, Concat;
  }

  lemma FlushOk(log: Log)
    requires LogOk(log) && log.pending != []
    ensures LogOk(Flush(log)) && |EncodeRecords(Flush(log).pending)| == 0 && Flushed(log) <= Flushed(Flush(log))
  {
    FlushWrites(log);
    assert EncodeRecords([]) == [];
    hide EncodeRecords, EncodeRecord, Concat;
  }

  lemma SomePending(log: Log)
    ensures |EncodeRecords(log.pending)| > 0 ==> log.pending != []
  {
  }

  /** A write adds exactly one record at the end, numbered by its position, if the payload is acceptable, and none otherwise;
      blocks stay well formed. No record is lost or moved by the flushes in between. */
  lemma WriteAppends(log: Log, now: u64, payload: seq<byte>)
    requires LogOk(log)
    ensures LogOk(Write(log, now, payload))
    ensures Written(Write(log, now, payload)) ==
            if Acceptable(payload) then Written(log) + [Record(Wrap(|Written(log)|), now, payload)] else Written(log)
    ensures Flushed(log) <= Flushed(Write(log, now, payload))
  {
    hide LogOk, Written, Flushed, Flush, Append, Checkpoint, EncodeRecords;
    SomePending(log);
    if |payload| == 0 {
    } else if HEADER + |payload| > BLOCK {
      CheckpointFlushes(log);
    } else if |EncodeRecords(log.pending)| + HEADER + |payload| > BLOCK {
      FlushOk(log);
      FlushWrites(log);
      AppendWrites(Flush(log), now, payload);
    } else {
      AppendWrites(log, now, payload);
    }
  }

  lemma CheckpointFlushes(log: Log)
    requires LogOk(log)
    ensures LogOk(Checkpoint(log)) && Written(Checkpoint(log)) == Written(log) == Flushed(Checkpoint(log))
    ensures Checkpoint(log).pending == [] && Flushed(log) <= Flushed(Checkpoint(log))
  {
    FlushWrites(log);
  }

  // ---------------------------------------------------------------------------------------------------
  // The reader

  /** The records of one block from `pos` on; `garbage` when an over-long one stops the whole replay. */
  datatype Scan = Scan(records: seq<Record>, garbage: bool)

  function LengthAt(block: seq<byte>, pos: nat): nat
    requires pos + HEADER <= |block|
  {
    FromLittleEndian(block[pos+16..pos+18])
  }

  function RecordAt(block: seq<byte>, pos: nat, len: nat): Record
    requires pos + HEADER + len <= |block|
  {
    FromLittleEndianBound(block[pos..pos+8]);
    FromLittleEndianBound(block[pos+8..pos+16]);
    Widths();
    Record(FromLittleEndian(block[pos..pos+8]), FromLittleEndian(block[pos+8..pos+16]),
           block[pos+HEADER..pos+HEADER+len])
  }

  function ScanBlock(block: seq<byte>, pos: nat): Scan
    requires |block| == BLOCK
    decreases BLOCK - pos
  {
    if pos + HEADER > BLOCK then Scan([], false)
    else
      var len := LengthAt(block, pos);
      if len == 0 then Scan([], false)
      else if len > LONGEST then Scan([], true)
      else if pos + HEADER + len > BLOCK then Scan([], false)
      else
        var rest := ScanBlock(block, pos + HEADER + len);
        Scan([RecordAt(block, pos, len)] + rest.records, rest.garbage)
  }

  function Replay(file: seq<byte>): seq<Record>
    decreases |file|
  {
    if |file| < BLOCK then []
    else
      var s := ScanBlock(file[..BLOCK], 0);
      if s.garbage || s.records == [] then s.records
      else s.records + Replay(file[BLOCK..])
  }

  /** The records up to, and without, the first one a reader takes for garbage. */
  function Readable(rs: seq<Record>): seq<Record> {
    if rs == [] || |rs[0].payload| > LONGEST then [] else [rs[0]] + Readable(rs[1..])
  }

  lemma Slices(a: seq<byte>, b: seq<byte>, c: seq<byte>, d: seq<byte>, block: seq<byte>, pos: nat)
    requires |a| == 8 && |b| == 8 && |c| == 2 && pos + HEADER + |d| <= |block|
    requires block[pos..pos + HEADER + |d|] == a + b + c + d
    ensures block[pos..pos+8] == a && block[pos+8..pos+16] == b
    ensures block[pos+16..pos+18] == c && block[pos+HEADER..pos+HEADER+|d|] == d
  {
    var end := pos + HEADER + |d|;
    SubSlice(block, pos, end, 0, 8);
    SubSlice(block, pos, end, 8, 16);
    SubSlice(block, pos, end, 16, 18);
    SubSlice(block, pos, end, HEADER, HEADER + |d|);
    assert (a + b + c + d)[0..8] == a && (a + b + c + d)[8..16] == b;
    assert (a + b + c + d)[16..18] == c && (a + b + c + d)[HEADER..HEADER + |d|] == d;
  }

  lemma SubSlice(s: seq<byte>, p: nat, q: nat, x: nat, y: nat)
    requires p <= q <= |s| && x <= y <= q - p
    ensures s[p..q][x..y] == s[p+x..p+y]
  {
    assert forall i :: 0 <= i < y - x ==> s[p..q][x..y][i] == s[p+x..p+y][i];
  }

  lemma ReadRecord(block: seq<byte>, pos: nat, r: Record)
    requires |r.payload| < 0x1_0000 && pos + HEADER + |r.payload| <= |block|
    requires block[pos..pos + HEADER + |r.payload|] == EncodeRecord(r)
    ensures LengthAt(block, pos) == |r.payload| && RecordAt(block, pos, |r.payload|) == r
  {
    Widths();
    LittleEndianRoundTrip(r.seqNo, 8);
    LittleEndianRoundTrip(r.timestamp, 8);
    LittleEndianRoundTrip(|r.payload|, 2);
    hide LittleEndian;
    hide FromLittleEndian;
    hide Pow256;
    Slices(LittleEndian(r.seqNo, 8), LittleEndian(r.timestamp, 8), LittleEndian(|r.payload|, 2), r.payload, block, pos);
  }

  lemma ScanZeros(block: seq<byte>, pos: nat)
    requires |block| == BLOCK && pos <= BLOCK && forall i :: pos <= i < BLOCK ==> block[i] == 0
    ensures ScanBlock(block, pos) == Scan([], false)
  {
    if pos + HEADER <= BLOCK {
      var field := block[pos+16..pos+18];
      assert forall i :: 0 <= i < 2 ==> field[i] == 0;
      ZeroField(field);
    }
  }

  lemma Behind(front: seq<byte>, e: seq<byte>, tail: seq<byte>, zeros: seq<byte>)
    ensures var b := front + (e + tail) + zeros;
            b == (front + e) + tail + zeros && b[|front|..|front|+|e|] == e
  {
  }

  /** Scanning a block from where the records `rs` start reads them, up to the first over-long one. */
  lemma {:induction false} ScanReads(block: seq<byte>, front: seq<byte>, rs: seq<Record>, z: nat)
    requires |block| == BLOCK && block == front + EncodeRecords(rs) + Zeros(z)
    requires forall i :: 0 <= i < |rs| ==> Acceptable(rs[i].payload)
    ensures ScanBlock(block, |front|) == Scan(Readable(rs), Readable(rs) != rs)
    decreases |rs|
  {
    if rs == [] {
      ScanZeros(block, |front|);
    } else {
      hide EncodeRecord;
      hide LengthAt;
      hide RecordAt;
      var r := rs[0];
      var e, tail := EncodeRecord(r), EncodeRecords(rs[1..]);
      Behind(front, e, tail, Zeros(z));
      ScanReads(block, front + e, rs[1..], z);
      assert Acceptable(r.payload);
      ReadRecord(block, |front|, r);
    }
  }

  lemma {:induction false} ReadableConcat(a: seq<Record>, b: seq<Record>)
    ensures Readable(a + b) == if Readable(a) == a then a + Readable(b) else Readable(a)
  {
    if a == [] {
      assert a + b == b;
    } else {
      hide Readable;
      var x, rest := a[0], a[1..];
      ReadableConcat(rest, b);
      ReadableCons(x, rest);
      ReadableCons(x, rest + b);
      Associative([x], rest, b);
      Associative([x], rest, Readable(b));
      assert a == [x] + rest;
    }
  }

  lemma ReadableCons(x: Record, rest: seq<Record>)
    ensures Readable([x] + rest) == if |x.payload| > LONGEST then [] else [x] + Readable(rest)
    ensures Readable([x] + rest) == [x] + rest <==> |x.payload| <= LONGEST && Readable(rest) == rest
  {
    assert ([x] + rest)[0] == x && ([x] + rest)[1..] == rest;
    if |x.payload| <= LONGEST && Readable([x] + rest) == [x] + rest {
      assert Readable(rest) == ([x] + Readable(rest))[1..] == ([x] + rest)[1..] == rest;
    }
  }

  /** A reader gets all of `rs` exactly when no payload is over-long. */
  lemma {:induction false} ReadableAll(rs: seq<Record>)
    ensures Readable(rs) <= rs
    ensures Readable(rs) == rs <==> forall i :: 0 <= i < |rs| ==> |rs[i].payload| <= LONGEST
  {
    if rs != [] {
      ReadableAll(rs[1..]);
      assert rs == [rs[0]] + rs[1..];
    }
  }

  lemma ReplayZeros(z: nat)
    ensures Replay(Zeros(z)) == []
  {
    if z >= BLOCK {
      ScanZeros(Zeros(z)[..BLOCK], 0);
    }
  }

  /** Reading the flushed blocks back, with any number of pre-allocated zero bytes behind them, delivers the
      flushed records byte for byte and in order, up to the first over-long payload. */
  lemma {:induction false} ReplayReads(blocks: seq<seq<Record>>, z: nat)
    requires forall i :: 0 <= i < |blocks| ==> BlockOk(blocks[i]) && blocks[i] != []
    ensures Replay(EncodeBlocks(blocks) + Zeros(z)) == Readable(Concat(blocks))
    decreases |blocks|
  {
    if blocks == [] {
      assert EncodeBlocks(blocks) + Zeros(z) == Zeros(z);
      ReplayZeros(z);
    } else {
      var b, rest := blocks[0], EncodeBlocks(blocks[1..]) + Zeros(z);
      var file := EncodeBlocks(blocks) + Zeros(z);
      assert BlockOk(b) && b != [];
      assert file == EncodeBlock(b) + rest;
      assert file[..BLOCK] == EncodeBlock(b) && file[BLOCK..] == rest;
      ReplayReads(blocks[1..], z);
      FirstBlock(b);
      ReadableConcat(b, Concat(blocks[1..]));
    }
  }

  lemma FirstBlock(b: seq<Record>)
    requires BlockOk(b)
    ensures ScanBlock(EncodeBlock(b), 0) == Scan(Readable(b), Readable(b) != b)
  {
    var z := BLOCK - |EncodeRecords(b)|;
    assert EncodeBlock(b) == [] + EncodeRecords(b) + Zeros(z);
    ScanReads(EncodeBlock(b), [], b, z);
  }

  // ---------------------------------------------------------------------------------------------------
  // Runs

  datatype Call = Put(now: u64, payload: seq<byte>) | Sync

  function After(calls: seq<Call>): Log {
    if calls == [] then FRESH
    else
      var log := After(calls[..|calls|-1]);
      match calls[|calls|-1]
      case Put(now, payload) => Write(log, now, payload)
      case Sync => Checkpoint(log)
  }

  /** The records the calls ask for: the acceptable payloads in call order, numbered from 0. */
  function Requested(calls: seq<Call>): seq<Record> {
    if calls == [] then []
    else
      var rs := Requested(calls[..|calls|-1]);
      match calls[|calls|-1]
      case Put(now, payload) =>
        if Acceptable(payload) then rs + [Record(Wrap(|rs|), now, payload)] else rs
      case Sync => rs
  }

  lemma {:induction false} RunWrites(calls: seq<Call>)
    ensures LogOk(After(calls)) && Written(After(calls)) == Requested(calls)
  {
    if calls == [] {
      assert EncodeRecords([]) == [];
    } else {
      RunWrites(calls[..|calls|-1]);
      var log := After(calls[..|calls|-1]);
      match calls[|calls|-1]
      case Put(now, payload) => WriteAppends(log, now, payload);
      case Sync => CheckpointFlushes(log);
    }
  }

  /** At any moment of any run on a fresh file: the reader gets a prefix of what was asked for, and what is
      missing from the flushed part is exactly the records still in the buffer; if no payload was over-long
      the reader gets the whole flushed part, and after a final checkpoint everything. */
  lemma ReplayAfterRun(calls: seq<Call>, z: nat)
    ensures LogOk(After(calls))
    ensures var log := After(calls);
            var read := Replay(EncodeBlocks(log.blocks) + Zeros(z));
            && Requested(calls) == Flushed(log) + log.pending
            && read <= Flushed(log)
            && (read == Flushed(log) <==>
                forall i :: 0 <= i < |Flushed(log)| ==> |Flushed(log)[i].payload| <= LONGEST)
            && (calls != [] && calls[|calls|-1].Sync? ==> log.pending == [] && Flushed(log) == Requested(calls))
  {
    RunWrites(calls);
    var log := After(calls);
    ReplayReads(log.blocks, z);
    ReadableAll(Flushed(log));
    if calls != [] && calls[|calls|-1].Sync? {
      RunWrites(calls[..|calls|-1]);
      CheckpointFlushes(After(calls[..|calls|-1]));
    }
  }

  /** An input: a record the writer accepts, flushes, and no reader gets back. */
  lemma OverlongLost(now: u64)
    ensures var calls := [Put(now, Zeros(LONGEST + 1)), Sync];
            && Requested(calls) == Flushed(After(calls)) == [Record(0, now, Zeros(LONGEST + 1))]
            && LogOk(After(calls)) && Replay(EncodeBlocks(After(calls).blocks)) == []
  {
    var calls := [Put(now, Zeros(LONGEST + 1)), Sync];
    var long := Record(0, now, Zeros(LONGEST + 1));
    assert calls[..1] == [Put(now, Zeros(LONGEST + 1))] && calls[..1][..0] == [];
    assert Requested(calls[..1]) == [long];
    hide Replay, EncodeBlocks, Concat;
    ReplayAfterRun(calls, 0);
    var log := After(calls);
    assert Flushed(log) == Requested(calls) == [long] && |Flushed(log)[0].payload| > LONGEST;
    assert EncodeBlocks(log.blocks) + Zeros(0) == EncodeBlocks(log.blocks);
  }
}
