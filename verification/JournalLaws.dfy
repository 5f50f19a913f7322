/** Laws of the journal stated byte by byte and block by block: where fields lie, when a write flushes, and what a reader
    makes of any block at all. */
module JournalLaws {
  import opened Types
  import opened Bytes
  import opened ByteType
  import opened Sequences
  import opened JournalSpec

  // ----- Layout -----

  /** A record: sequence number, timestamp and payload length, least significant byte first, then the payload. */
  lemma RecordLayout(r: Record)
    requires |r.payload| < 0x1_0000
    ensures var m := EncodeRecord(r);
            && |m| == 18 + |r.payload|
            && m[0..8] == LittleEndian(r.seqNo, 8) && FromLittleEndian(m[0..8]) == r.seqNo
            && m[8..16] == LittleEndian(r.timestamp, 8) && FromLittleEndian(m[8..16]) == r.timestamp
            && m[16] as int + 256 * (m[17] as int) == |r.payload|
            && m[18..] == r.payload
  {
    Widths();
    LittleEndianRoundTrip(r.seqNo, 8);
    LittleEndianRoundTrip(r.timestamp, 8);
    LittleEndianRoundTrip(|r.payload|, 2);
    hide LittleEndian, Pow256;
    var a, b, n := LittleEndian(r.seqNo, 8), LittleEndian(r.timestamp, 8), LittleEndian(|r.payload|, 2);
    var m := EncodeRecord(r);
    assert m == a + b + n + r.payload;
    assert m[0..8] == a && m[8..16] == b && m[16..18] == n;
    TwoBytes(n);
    assert m[16] == n[0] && m[17] == n[1];
  }

  /** A block: 4096 bytes, the records one behind the other, then zeros. */
  lemma BlockLayout(rs: seq<Record>)
    requires |EncodeRecords(rs)| <= 4096
    ensures var m, n := EncodeBlock(rs), |EncodeRecords(rs)|;
            |m| == 4096 && m[..n] == EncodeRecords(rs) && forall i :: n <= i < 4096 ==> m[i] == 0
  {
  }

  lemma {:induction false} RecordsLayout(rs: seq<Record>, i: nat)
    requires i < |rs|
    ensures |EncodeRecords(rs[..i])| + 18 + |rs[i].payload| <= |EncodeRecords(rs)|
    ensures var at := |EncodeRecords(rs[..i])|;
            EncodeRecords(rs)[at..at + 18 + |rs[i].payload|] == EncodeRecord(rs[i])
  {
    assert rs == rs[..i] + ([rs[i]] + rs[i+1..]);
    EncodeConcat(rs[..i], [rs[i]] + rs[i+1..]);
    EncodeConcat([rs[i]], rs[i+1..]);
    EncodeOne(rs[i]);
  }

  // ----- When a write flushes -----

  /** A write closes the block in the buffer if and only if there is something in it and the record, not empty, does not fit
      behind it: header 18 bytes, block 4096. */
  lemma WriteFlushesIff(log: Log, now: u64, payload: seq<byte>)
    ensures var log' := Write(log, now, payload);
            var full := payload != [] && log.pending != [] && |EncodeRecords(log.pending)| + 18 + |payload| > 4096;
            && log'.blocks == (if full then log.blocks + [log.pending] else log.blocks)
            && log'.pending == (if full then [] else log.pending)
                               + (if 0 < |payload| <= 4078 then [Record(Wrap(|Written(log)|), now, payload)] else [])
  {
    if log.pending == [] {
      assert |EncodeRecords(log.pending)| == 0;
    }
    if |EncodeRecords(log.pending)| + HEADER + |payload| > BLOCK {
      FlushWrites(log);
    }
    hide EncodeRecords, Written;
    Nothing(log.pending);
  }

  /** The block boundaries of a run: for each block, whether a call forced it out, a sync or a payload no block can hold. */
  function Forced(calls: seq<Call>): seq<bool> {
    if calls == [] then []
    else
      var before, call := calls[..|calls| - 1], calls[|calls| - 1];
      if |After(calls).blocks| > |After(before).blocks| then Forced(before) + [call.Sync? || 18 + |call.payload| > 4096]
      else Forced(before)
  }

  /** The record that comes behind block `i`. */
  ghost predicate Packed(log: Log, i: nat)
    requires i < |log.blocks|
  {
    var next := if i + 1 < |log.blocks| then log.blocks[i + 1] else log.pending;
    next != [] && |EncodeRecords(log.blocks[i])| + 18 + |next[0].payload| > 4096
  }

  lemma CallMoves(calls: seq<Call>)
    requires calls != []
    ensures var log, log', call := After(calls[..|calls| - 1]), After(calls), calls[|calls| - 1];
            || (log'.blocks == log.blocks && log.pending <= log'.pending)
            || (log'.blocks == log.blocks + [log.pending] && log.pending != []
                && (call.Put? && 18 + |call.payload| <= 4096 ==>
                      log'.pending != [] && |EncodeRecords(log.pending)| + 18 + |log'.pending[0].payload| > 4096))
  {
    var log, call := After(calls[..|calls| - 1]), calls[|calls| - 1];
    match call
    case Put(now, payload) => WriteFlushesIff(log, now, payload);
    case Sync =>
  }

  /** Blocks are filled: over any run, every block that no call forced out was too full for the record that comes next. */
  lemma {:induction false} BlocksPacked(calls: seq<Call>)
    ensures |Forced(calls)| == |After(calls).blocks|
    ensures forall i :: 0 <= i < |Forced(calls)| && !Forced(calls)[i] ==> Packed(After(calls), i)
  {
    if calls != [] {
      hide EncodeRecords;
      var before := calls[..|calls| - 1];
      BlocksPacked(before);
      CallMoves(calls);
      hide After;
      var log, log' := After(before), After(calls);
      forall i | 0 <= i < |log.blocks| && !Forced(before)[i]
        ensures i < |log'.blocks| && Packed(log', i)
      {
        assert Packed(log, i);
      }
    }
  }

  // ----- What a reader makes of any block -----

  /** Where the scan of a block ends: too little is left for a header, the length is zero, too large to be true, or larger
      than what is left of the block. */
  predicate Ends(tail: seq<byte>) {
    |tail| < 18 ||
    var len := tail[16] as int + 256 * (tail[17] as int);
    len == 0 || len > 1024 || 18 + len > |tail|
  }

  predicate Garbage(tail: seq<byte>) {
    |tail| >= 18 && tail[16] as int + 256 * (tail[17] as int) > 1024
  }

  predicate Plausible(r: Record) {
    0 < |r.payload| <= 1024
  }

  /** The records of a block are those that stand at its front, up to where the scan ends; an over-long one there is taken
      for garbage. */
  lemma {:induction false} ScanEnds(block: seq<byte>, front: seq<byte>, rs: seq<Record>, tail: seq<byte>)
    requires |block| == 4096 && block == front + EncodeRecords(rs) + tail && Ends(tail)
    requires forall i :: 0 <= i < |rs| ==> Plausible(rs[i])
    ensures ScanBlock(block, |front|) == Scan(rs, Garbage(tail))
    decreases |rs|
  {
    if rs == [] {
      ScanTail(block, front, tail);
    } else {
      hide EncodeRecord;
      hide LengthAt;
      hide RecordAt;
      hide Ends;
      hide Garbage;
      var r := rs[0];
      var e, more := EncodeRecord(r), EncodeRecords(rs[1..]);
      Behind(front, e, more, tail);
      ScanEnds(block, front + e, rs[1..], tail);
      assert Plausible(r);
      ReadRecord(block, |front|, r);
    }
  }

  lemma TailLength(block: seq<byte>, pos: nat)
    requires pos + 18 <= |block|
    ensures LengthAt(block, pos) == block[pos..][16] as int + 256 * (block[pos..][17] as int)
  {
    var field := block[pos + 16..pos + 18];
    TwoBytes(field);
    assert field[0] == block[pos + 16] && field[1] == block[pos + 17];
    hide FromLittleEndian;
  }

  lemma ScanTail(block: seq<byte>, front: seq<byte>, tail: seq<byte>)
    requires |block| == 4096 && block == front + [] + tail && Ends(tail)
    ensures ScanBlock(block, |front|) == Scan([], Garbage(tail))
  {
    assert block[|front|..] == tail;
    if |tail| >= 18 {
      TailLength(block, |front|);
    }
    hide LengthAt;
  }

  lemma Cut(s: seq<byte>, a: nat, b: nat, c: nat)
    requires a <= b <= c <= |s|
    ensures s[a..c] == s[a..b] + s[b..c]
  {
  }

  lemma RecordBack(block: seq<byte>, pos: nat)
    requires pos + 18 <= |block| && pos + 18 + LengthAt(block, pos) <= |block| && LengthAt(block, pos) < 0x1_0000
    ensures var len := LengthAt(block, pos);
            EncodeRecord(RecordAt(block, pos, len)) == block[pos..pos + 18 + len]
  {
    var end := pos + 18 + LengthAt(block, pos);
    LittleEndianBack(block[pos..pos + 8]);
    LittleEndianBack(block[pos + 8..pos + 16]);
    LittleEndianBack(block[pos + 16..pos + 18]);
    hide LittleEndian, FromLittleEndian;
    Cut(block, pos, pos + 18, end);
    Cut(block, pos, pos + 16, pos + 18);
    Cut(block, pos, pos + 8, pos + 16);
  }

  lemma NotEnds(block: seq<byte>, pos: nat)
    requires |block| == 4096 && pos <= 4096 && !Ends(block[pos..])
    ensures pos + HEADER <= |block| && 0 < LengthAt(block, pos) <= 1024
    ensures pos + 18 + LengthAt(block, pos) <= 4096 && pos + HEADER + LengthAt(block, pos) <= |block|
    ensures Plausible(RecordAt(block, pos, LengthAt(block, pos)))
  {
    TailLength(block, pos);
    hide LengthAt, FromLittleEndian;
  }

  /** Every block reads that way from any position on. */
  lemma {:induction false} BlockParses(block: seq<byte>, pos: nat) returns (rs: seq<Record>, tail: seq<byte>)
    requires |block| == 4096 && pos <= 4096
    ensures block[pos..] == EncodeRecords(rs) + tail && Ends(tail)
    ensures forall i :: 0 <= i < |rs| ==> Plausible(rs[i])
    decreases 4096 - pos
  {
    hide *;
    rs, tail := [], block[pos..];
    if Ends(tail) {
      NoRecords();
      Nothing(tail);
    } else {
      NotEnds(block, pos);
      var end := pos + 18 + LengthAt(block, pos);
      var r := RecordAt(block, pos, LengthAt(block, pos));
      RecordBack(block, pos);
      var rs', tail' := BlockParses(block, end);
      EncodeConcat([r], rs');
      EncodeOne(r);
      rs, tail := [r] + rs', tail';
      Cut(block, pos, end, 4096);
      assert block[pos..] == block[pos..4096] && block[end..] == block[end..4096];
      Associative(EncodeRecord(r), EncodeRecords(rs'), tail');
    }
  }

  lemma NoRecords()
    ensures EncodeRecords([]) == []
  {
  }

  /** What `replay` delivers of any file at all: the records at the front of its first block, and then those of the rest,
      unless the block ends in garbage or holds none; nothing of a file shorter than a block. */
  lemma ReplayIs(file: seq<byte>, rs: seq<Record>, tail: seq<byte>)
    requires |file| >= 4096 ==>
               && file[..4096] == EncodeRecords(rs) + tail && Ends(tail)
               && forall i :: 0 <= i < |rs| ==> Plausible(rs[i])
    ensures |file| < 4096 ==> Replay(file) == []
    ensures |file| >= 4096 ==> Replay(file) == rs + if Garbage(tail) || rs == [] then [] else Replay(file[4096..])
  {
    if |file| >= 4096 {
      assert file[..4096] == [] + EncodeRecords(rs) + tail;
      ScanEnds(file[..4096], [], rs, tail);
      hide ScanBlock, EncodeRecords, Ends, Garbage;
      Nothing(rs);
    }
  }
}
