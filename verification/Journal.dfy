/** The journal: a 4096-byte buffer in front of an append-only file, and the reader. */
module Journals {
  import opened Types
  import opened Bytes
  import opened ByteType
  import opened JournalSpec

  class Journal {
    var file: seq<byte>           // what has been written to the file
    var writePos: u64
    var seqNo: u64
    const writeBuf: array<byte>
    var bufPos: nat
    ghost var log: Log

    ghost predicate Valid()
      reads this, writeBuf
    {
      && writeBuf.Length == BLOCK && LogOk(log)
      && bufPos == |EncodeRecords(log.pending)| && writeBuf[..] == EncodeBlock(log.pending)
      && file == EncodeBlocks(log.blocks)
      && writePos == Wrap(|file|)
      && seqNo == Wrap(|Written(log)|)
    }

    lemma FileIs()
      requires Valid()
      ensures LogOk(log) && file == EncodeBlocks(log.blocks)
    {
    }

    /** A journal on a fresh file; its buffer starts zeroed. */
    constructor ()
      ensures Valid() && log == FRESH && fresh(writeBuf)
    {
      file, writePos, seqNo, bufPos := [], 0, 0, 0;
      writeBuf := new byte[BLOCK](_ => 0);
      log := FRESH;
      new;
      assert writeBuf[..] == Zeros(BLOCK);
      assert EncodeBlock([]) == Zeros(BLOCK);
    }

    /** Writes the whole buffer out and zeroes it. */
    method FlushBuffer()
      requires Valid() && log.pending != []
      modifies this, writeBuf
      ensures Valid() && log == Flush(old(log))
    {
      hide LogOk, Written, Flush, EncodeRecords, EncodeBlock, EncodeBlocks, Zeros, Wrap;
      FlushFacts(log);
      WrapAdd(|file|, BLOCK);
      file := file + writeBuf[..];
      writePos := Wrap(writePos as int + BLOCK);
      bufPos := 0;
      CopyInto(writeBuf, 0, Zeros(BLOCK));
      log := Flush(log);
    }

    lemma FlushFacts(log: Log)
      requires LogOk(log) && log.pending != []
      ensures LogOk(Flush(log)) && |Written(Flush(log))| == |Written(log)|
      ensures EncodeBlocks(Flush(log).blocks) == EncodeBlocks(log.blocks) + EncodeBlock(log.pending)
      ensures |EncodeRecords(Flush(log).pending)| == 0 && EncodeBlock(Flush(log).pending) == Zeros(BLOCK)
    {
      FlushOk(log);
      FlushWrites(log);
      EncodeBlocksPush(log.blocks, log.pending);
      assert EncodeRecords([]) == [];
      assert [] + Zeros(BLOCK) == Zeros(BLOCK);
      hide EncodeRecord, EncodeBlocks, Concat;
    }

    method Checkpoint()
      requires Valid()
      modifies this, writeBuf
      ensures Valid() && log == JournalSpec.Checkpoint(old(log))
    {
      if bufPos > 0 {
        FlushBuffer();
      } else {
        NothingPending(log.pending);
      }
    }

    lemma NothingPending(rs: seq<Record>)
      requires |EncodeRecords(rs)| == 0
      ensures rs == []
    {
    }

    /** Copies header and payload of the next record behind the records in the buffer. */
    method PutRecord(payload: seq<byte>, now: u64)
      requires Valid() && Acceptable(payload) && bufPos + HEADER + |payload| <= BLOCK
      modifies this, writeBuf
      ensures Valid() && log == Append(old(log), now, payload)
    {
      hide EncodeRecords;
      hide EncodeBlock;
      hide EncodeBlocks;
      hide LogOk;
      hide Written;
      hide LittleEndian;
      hide Append;
      ghost var was := log.pending;
      ghost var r := Record(seqNo, now, payload);
      AppendWrites(log, now, payload);
      var header := LittleEndian(seqNo, 8) + LittleEndian(now, 8) + LittleEndian(|payload|, 2);
      PutBytes(payload, header, was, r);
      seqNo := Wrap(seqNo as int + 1);
      log := Append(log, now, payload);
    }

    method PutBytes(payload: seq<byte>, header: seq<byte>, ghost was: seq<Record>, ghost r: Record)
      requires writeBuf.Length == BLOCK && bufPos == |EncodeRecords(was)| <= BLOCK && writeBuf[..] == EncodeBlock(was)
      requires |header| == HEADER && header + payload == EncodeRecord(r) && bufPos + HEADER + |payload| <= BLOCK
      requires EncodeRecords(was + [r]) == EncodeRecords(was) + EncodeRecord(r)
      modifies writeBuf, `bufPos
      ensures bufPos == |EncodeRecords(was + [r])| && writeBuf[..] == EncodeBlock(was + [r])
    {
      hide EncodeRecords;
      hide EncodeRecord;
      CopyInto(writeBuf, bufPos, header);
      CopyInto(writeBuf, bufPos + HEADER, payload);
      bufPos := bufPos + HEADER + |payload|;
    }

    /** Appends one record to the log. An empty payload is ignored; one that does not fit a block only
        flushes; a full buffer is flushed first. */
    method Write(payload: seq<byte>, now: u64)
      requires Valid() && |payload| < 0x1_0000
      modifies this, writeBuf
      ensures Valid() && log == JournalSpec.Write(old(log), now, payload)
    {
      if |payload| == 0 {
        return;
      }
      var total := HEADER + |payload|;
      if total > BLOCK {
        Checkpoint();
        return;
      }
      if bufPos + total > BLOCK {
        FlushBuffer();
      }
      PutRecord(payload, now);
    }

    /** Flushes what is buffered; the file handle itself is not part of this model. */
    method Close()
      requires Valid()
      modifies this, writeBuf
      ensures Valid() && log == JournalSpec.Checkpoint(old(log)) && log.pending == []
    {
      Checkpoint();
    }

    /** The inner loop of `Replay`: the records of one block. */
    static method ReadBlock(block: seq<byte>) returns (records: seq<Record>, garbage: bool)
      requires |block| == BLOCK
      ensures Scan(records, garbage) == ScanBlock(block, 0)
    {
      records, garbage := [], false;
      var pos := 0;
      ghost var scan := ScanBlock(block, 0);
      ResumeStart(scan);
      while pos + HEADER <= BLOCK
        invariant scan == Resume(records, ScanBlock(block, pos)) && !garbage
        decreases BLOCK - pos
      {
        var len := LengthAt(block, pos);
        if len == 0 {
          break;
        }
        if len > LONGEST {
          garbage := true;
          break;
        }
        if pos + HEADER + len > BLOCK {
          break;
        }
        ResumeStep(records, block, pos);
        records := records + [RecordAt(block, pos, len)];
        pos := pos + HEADER + len;
      }
      assert records + [] == records;
    }

    /** Delivers the records of a file, block by block; garbage ends the replay, and so does a block without
        any record. */
    static method Replay(file: seq<byte>) returns (records: seq<Record>)
      ensures records == JournalSpec.Replay(file)
    {
      records := [];
      var at := 0;
      assert file[0..] == file;
      while at + BLOCK <= |file|
        invariant at <= |file|
        invariant JournalSpec.Replay(file) == records + JournalSpec.Replay(file[at..])
      {
        hide *;
        ReplayUnfold(file, at, records);
        var rs, garbage := ReadBlock(file[at..at+BLOCK]);
        records := records + rs;
        if garbage || rs == [] {
          return;
        }
        at := at + BLOCK;
      }
      assert records + [] == records;
    }
  }

  /** One round of the outer loop. */
  lemma ReplayUnfold(file: seq<byte>, at: nat, before: seq<Record>)
    requires at + BLOCK <= |file|
    ensures var s := ScanBlock(file[at..at+BLOCK], 0);
            before + JournalSpec.Replay(file[at..]) ==
            before + s.records + if s.garbage || s.records == [] then [] else JournalSpec.Replay(file[at+BLOCK..])
  {
    assert file[at..][..BLOCK] == file[at..at+BLOCK] && file[at..][BLOCK..] == file[at+BLOCK..];
    var s := ScanBlock(file[at..at+BLOCK], 0);
    var rest := JournalSpec.Replay(file[at+BLOCK..]);
    hide ScanBlock;
    assert before + (s.records + rest) == before + s.records + rest;
    assert before + s.records + [] == before + s.records;
  }

  ghost function Resume(done: seq<Record>, s: Scan): Scan {
    Scan(done + s.records, s.garbage)
  }

  lemma ResumeStart(s: Scan)
    ensures Resume([], s) == s
  {
    assert [] + s.records == s.records;
  }

  lemma ResumeStep(done: seq<Record>, block: seq<byte>, pos: nat)
    requires |block| == BLOCK && pos + HEADER <= BLOCK
    requires 0 < LengthAt(block, pos) <= LONGEST && pos + HEADER + LengthAt(block, pos) <= BLOCK
    ensures var len := LengthAt(block, pos);
            Resume(done, ScanBlock(block, pos)) ==
            Resume(done + [RecordAt(block, pos, len)], ScanBlock(block, pos + HEADER + len))
  {
    var len := LengthAt(block, pos);
    var r := RecordAt(block, pos, len);
    var rest := ScanBlock(block, pos + HEADER + len);
    hide LengthAt;
    hide RecordAt;
    assert done + ([r] + rest.records) == (done + [r]) + rest.records;
  }
}
