/** Rebuilding the book from the journal of an engine run: replay determinism, what survives a crash, and the exact
    condition for both. */
module Rebuilding {
  import opened Types
  import opened Bytes
  import opened ByteType
  import opened Sequences
  import opened BookSpec
  import opened BookLaws
  import opened Risk
  import opened EngineSpec
  import JournalSpec
  import Codec

  /** One journal record replayed: an order is matched into a slot of the pool; anything else, and an order that does not
      decode, is skipped. `None` when no slot is left or the message is not framed. */
  function ReplayOne(b: Book, payload: seq<byte>, capacity: nat): Option<Book> {
    if payload == [] || payload[0] != Codec.NEW_ORDER then Some(b)
    else if b.Count() >= capacity || !Codec.Framed(payload) then None
    else
      match Codec.Decode(payload)
      case None => Some(b)
      case Some(w) => Some(Submit(b, Codec.Received(w)).book)
  }

  function Rebuild(ps: seq<seq<byte>>, capacity: nat): Option<Book> {
    if ps == [] then Some(EMPTY)
    else
      match Rebuild(ps[..|ps| - 1], capacity)
      case None => None
      case Some(b) => ReplayOne(b, ps[|ps| - 1], capacity)
  }

  /** An order as it enters the market: nothing filled yet, price a 64-bit integer. */
  predicate Whole(e: Entry) {
    e.remaining == e.qty && -I63 <= e.price < I63
  }

  /** Every order the engine accepts comes in whole. */
  predicate Unfilled(inputs: seq<Input>, c: Config) {
    inputs != [] ==>
      var before, last := inputs[..|inputs| - 1], inputs[|inputs| - 1];
      Unfilled(before, c) && (Accepts(Run(before, c), last.order, c) ==> Whole(last.order))
  }

  lemma UnfilledParts(inputs: seq<Input>, c: Config)
    requires inputs != []
    ensures var before, last := inputs[..|inputs| - 1], inputs[|inputs| - 1];
            Unfilled(inputs, c) <==> Unfilled(before, c) && (Accepts(Run(before, c), last.order, c) ==> Whole(last.order))
  {
    hide Accepts, Whole;
  }

  lemma UnfilledNothing(c: Config)
    ensures Unfilled([], c)
  {
  }

  /** The state an order arrives in does not matter to the match. */
  lemma SubmitIgnoresState(b: Book, e: Entry, state: OrderState)
    ensures Submit(b, e.(state := state)) == Submit(b, e)
  {
  }

  lemma ReplayOrder(b: Book, e: Entry, capacity: nat)
    requires b.Count() < capacity && Whole(e)
    ensures ReplayOne(b, Codec.EncodeNewOrder(Codec.Sent(e)), capacity) == Some(Submit(b, e).book)
  {
    var m := Codec.EncodeNewOrder(Codec.Sent(e));
    assert m[0] == Codec.NEW_ORDER;
    hide Codec.EncodeNewOrder, Codec.Decode, Codec.Framed, Codec.Received, Codec.Sent;
    Codec.OrderRoundTrip(e);
    SubmitIgnoresState(b, e, New);
  }

  lemma {:induction false} RebuildSkips(ps: seq<seq<byte>>, events: seq<TradeEvent>, capacity: nat)
    ensures Rebuild(ps + Reports(events), capacity) == Rebuild(ps, capacity)
    decreases |events|
  {
    hide Codec.EncodeTradeReport, Codec.Decode, Codec.Framed, Codec.Received, Submit;
    if events == [] {
      Nothing(ps);
    } else {
      var front, last := events[..|events| - 1], events[|events| - 1];
      var all := ps + Reports(events);
      assert all[..|all| - 1] == ps + Reports(front);
      RebuildSkips(ps, front, capacity);
      Codec.TradeReportIsNoOrder(last);
      assert all[|all| - 1] == Codec.EncodeTradeReport(last);
    }
  }

  /** The records of one accepted order, or the first few of them, rebuild what its own record does. */
  lemma RebuildStep(ps: seq<seq<byte>>, s: State, input: Input, c: Config, n: nat)
    requires Rebuild(ps, c.capacity) == Some(s.book) && Accepts(s, input.order, c)
    requires 0 < n <= |StepPayloads(s, input, c)|
    ensures Rebuild(ps + StepPayloads(s, input, c)[..n], c.capacity) ==
            ReplayOne(s.book, Codec.EncodeNewOrder(Codec.Sent(input.order)), c.capacity)
  {
    var order := Codec.EncodeNewOrder(Codec.Sent(input.order));
    var events := Stamp(Submit(s.book, input.order).trades, input.stamps);
    hide ReplayOne, Codec.EncodeNewOrder, Codec.EncodeTradeReport, Submit, Passes;
    var one := ps + [order];
    assert one[..|one| - 1] == ps;
    RebuildSkips(one, events[..n - 1], c.capacity);
    assert StepPayloads(s, input, c)[..n] == [order] + Reports(events[..n - 1]);
    Associative(ps, [order], Reports(events[..n - 1]));
  }

  lemma StepAccepted(s: State, input: Input, c: Config)
    ensures Accepts(s, input.order, c) ==>
            && Step(s, input, c).book == Submit(s.book, input.order).book && s.book.Count() < c.capacity
            && 0 < |StepPayloads(s, input, c)|
    ensures !Accepts(s, input.order, c) ==> Step(s, input, c).book == s.book && StepPayloads(s, input, c) == []
    ensures !Accepts(s, input.order, c) ==> Step(s, input, c).log == s.log && Step(s, input, c).records == s.records
  {
    hide Submit, Passes, Codec.EncodeNewOrder, Journaled, PositionAfter;
  }

  lemma RebuildOrder(ps: seq<seq<byte>>, s: State, input: Input, c: Config, n: nat)
    requires Rebuild(ps, c.capacity) == Some(s.book) && Accepts(s, input.order, c) && Whole(input.order)
    requires 0 < n <= |StepPayloads(s, input, c)|
    ensures Rebuild(ps + StepPayloads(s, input, c)[..n], c.capacity) == Some(Step(s, input, c).book)
  {
    hide *;
    StepAccepted(s, input, c);
    RebuildStep(ps, s, input, c, n);
    ReplayOrder(s.book, input.order, c.capacity);
  }

  /** The state of the journal of a run, as payloads. */
  function JournalOf(inputs: seq<Input>, c: Config): seq<seq<byte>> {
    Payloads(JournalSpec.Written(Run(inputs, c).log))
  }

  lemma JournalOk(inputs: seq<Input>, c: Config)
    ensures JournalSpec.LogOk(Run(inputs, c).log)
    ensures |JournalOf(inputs, c)| == |JournalSpec.Written(Run(inputs, c).log)|
  {
    hide JournalSpec.LogOk, JournalSpec.Written, Step;
    if inputs == [] {
      RunNothing(c);
    } else {
      JournalOk(inputs[..|inputs| - 1], c);
      StepWrites(Run(inputs[..|inputs| - 1], c), inputs[|inputs| - 1], c);
    }
  }

  lemma JournalStep(inputs: seq<Input>, c: Config)
    requires inputs != []
    ensures var before, last := inputs[..|inputs| - 1], inputs[|inputs| - 1];
            JournalOf(inputs, c) == JournalOf(before, c) + StepPayloads(Run(before, c), last, c)
  {
    hide JournalSpec.LogOk, JournalSpec.Written, Step, StepPayloads;
    var before, last := inputs[..|inputs| - 1], inputs[|inputs| - 1];
    JournalOk(before, c);
    StepWrites(Run(before, c), last, c);
  }

  /** Replay determinism: the whole journal of a run rebuilds exactly the live book, every record finding a slot. */
  lemma {:induction false} JournalRebuildsBook(inputs: seq<Input>, c: Config)
    requires Unfilled(inputs, c)
    ensures Rebuild(JournalOf(inputs, c), c.capacity) == Some(Run(inputs, c).book)
  {
    hide *;
    if inputs == [] {
      RunNothing(c);
    } else {
      var before, last := inputs[..|inputs| - 1], inputs[|inputs| - 1];
      var s := Run(before, c);
      UnfilledParts(inputs, c);
      JournalRebuildsBook(before, c);
      RunStep(inputs, c);
      JournalStep(inputs, c);
      StepAccepted(s, last, c);
      var ps, step := JournalOf(before, c), StepPayloads(s, last, c);
      if Accepts(s, last.order, c) {
        RebuildOrder(ps, s, last, c, |step|);
        assert step[..|step|] == step;
      } else {
        Nothing(ps);
      }
    }
  }

  /** Any prefix of the journal rebuilds the book as it was after some number `k` of orders: the least number whose records
      cover the prefix. */
  lemma {:induction false} PrefixRebuilds(inputs: seq<Input>, c: Config, n: nat) returns (k: nat)
    requires Unfilled(inputs, c) && n <= |JournalOf(inputs, c)|
    ensures k <= |inputs|
    ensures Rebuild(JournalOf(inputs, c)[..n], c.capacity) == Some(Run(inputs[..k], c).book)
    ensures n <= |JournalOf(inputs[..k], c)| && (k > 0 ==> |JournalOf(inputs[..k - 1], c)| < n)
    decreases |inputs|
  {
    hide *;
    k := |inputs|;
    if inputs == [] {
      RunNothing(c);
      assert inputs[..0] == inputs;
    } else {
      var before, last := inputs[..|inputs| - 1], inputs[|inputs| - 1];
      var s := Run(before, c);
      UnfilledParts(inputs, c);
      JournalRebuildsBook(before, c);
      RunStep(inputs, c);
      JournalStep(inputs, c);
      StepAccepted(s, last, c);
      var ps, step := JournalOf(before, c), StepPayloads(s, last, c);
      if n <= |ps| {
        k := PrefixRebuilds(before, c, n);
        assert (ps + step)[..n] == ps[..n] && before[..k] == inputs[..k];
        assert k > 0 ==> before[..k - 1] == inputs[..k - 1];
      } else {
        assert (ps + step)[..n] == ps + step[..n - |ps|];
        RebuildOrder(ps, s, last, c, n - |ps|);
        assert inputs[..k] == inputs;
      }
    }
  }

  lemma RunNothing(c: Config)
    ensures Run([], c) == START && START.book == EMPTY
    ensures JournalSpec.LogOk(START.log) && JournalSpec.Written(START.log) == []
    ensures JournalOf([], c) == [] && Rebuild([], c.capacity) == Some(EMPTY)
  {
    assert JournalSpec.EncodeRecords([]) == [];
  }

  /** Every record is short enough for the reader, and none is shorter than that of an order. */
  lemma {:induction false} JournalReadable(inputs: seq<Input>, c: Config)
    ensures forall p :: p in JournalOf(inputs, c) ==> Codec.NEW_ORDER_SIZE <= |p| <= JournalSpec.LONGEST
  {
    hide *;
    if inputs == [] {
      RunNothing(c);
    } else {
      JournalReadable(inputs[..|inputs| - 1], c);
      JournalStep(inputs, c);
      StepSizes(Run(inputs[..|inputs| - 1], c), inputs[|inputs| - 1], c);
    }
  }

  lemma StepSizes(s: State, input: Input, c: Config)
    ensures forall p :: p in StepPayloads(s, input, c) ==> Codec.NEW_ORDER_SIZE <= |p| <= JournalSpec.LONGEST
  {
    hide Submit, Passes;
  }

  /** A reader gets everything that was flushed. */
  lemma ReadsFlushed(log: JournalSpec.Log, z: nat)
    requires JournalSpec.LogOk(log)
    requires forall p :: p in Payloads(JournalSpec.Written(log)) ==> |p| <= JournalSpec.LONGEST
    ensures JournalSpec.Replay(JournalSpec.EncodeBlocks(log.blocks) + Zeros(z)) == JournalSpec.Flushed(log)
  {
    JournalSpec.ReplayReads(log.blocks, z);
    var rs := JournalSpec.Flushed(log);
    forall i | 0 <= i < |rs|
      ensures |rs[i].payload| <= JournalSpec.LONGEST
    {
      assert rs[i].payload == Payloads(JournalSpec.Written(log))[i];
    }
    JournalSpec.ReadableAll(rs);
  }

  // ----- What a crash loses -----

  /** The order at `j - 1` was accepted and a checkpoint was due behind it. */
  predicate Checkpointed(inputs: seq<Input>, j: nat, c: Config) {
    && 0 < j <= |inputs| && Accepts(Run(inputs[..j - 1], c), inputs[j - 1].order, c)
    && Run(inputs[..j], c).records % 1000 == 0
  }

  /** Orders accepted so far. */
  function Accepted(inputs: seq<Input>, c: Config): nat {
    |Submitted(inputs, c)|
  }

  function Flushes(inputs: seq<Input>, c: Config): nat {
    |JournalSpec.Flushed(Run(inputs, c).log)|
  }

  lemma {:induction false} TradesFlush(log: JournalSpec.Log, events: seq<TradeEvent>, times: Clock)
    requires JournalSpec.LogOk(log)
    ensures |JournalSpec.Flushed(log)| <= |JournalSpec.Flushed(LogTrades(log, events, times))|
    decreases |events|
  {
    hide JournalSpec.Write, JournalSpec.Flushed, JournalSpec.LogOk, Codec.EncodeTradeReport;
    if events != [] {
      var front := events[..|events| - 1];
      TradesFlush(log, front, times);
      LogTradesWrites(log, front, times);
      JournalSpec.WriteAppends(LogTrades(log, front, times), times(|events|), Codec.EncodeTradeReport(events[|events| - 1]));
    }
  }

  /** A step takes nothing back that was flushed, and flushes everything when a checkpoint is due. */
  lemma StepFlushes(s: State, input: Input, c: Config)
    requires JournalSpec.LogOk(s.log)
    ensures var s' := Step(s, input, c);
            && |JournalSpec.Flushed(s.log)| <= |JournalSpec.Flushed(s'.log)|
            && (Accepts(s, input.order, c) && s'.records % 1000 == 0 ==>
                  JournalSpec.Flushed(s'.log) == JournalSpec.Written(s'.log))
  {
    hide JournalSpec.Write, JournalSpec.Flushed, JournalSpec.Written, JournalSpec.LogOk, JournalSpec.Checkpoint;
    hide Codec.EncodeTradeReport, Codec.EncodeNewOrder, Submit, Passes, PositionAfter;
    if Accepts(s, input.order, c) {
      var order := Codec.EncodeNewOrder(Codec.Sent(input.order));
      var log := LogOrder(s.log, input.order, input.times);
      JournalSpec.WriteAppends(s.log, input.times(0), order);
      TradesFlush(log, Stamp(Submit(s.book, input.order).trades, input.stamps), input.times);
      LogTradesWrites(log, Stamp(Submit(s.book, input.order).trades, input.stamps), input.times);
      JournalSpec.CheckpointFlushes(Journaled(s, input));
    }
  }

  /** How accepted orders, records and counts move in one step. */
  lemma StepCounts(inputs: seq<Input>, c: Config)
    requires inputs != []
    ensures var before, last := inputs[..|inputs| - 1], inputs[|inputs| - 1];
            var accepted := if Accepts(Run(before, c), last.order, c) then 1 else 0;
            && Accepted(inputs, c) == Accepted(before, c) + accepted
            && |JournalOf(inputs, c)| >= |JournalOf(before, c)| + accepted
            && Flushes(before, c) <= Flushes(inputs, c) <= |JournalOf(inputs, c)|
            && (Checkpointed(inputs, |inputs|, c) ==> Flushes(inputs, c) == |JournalOf(inputs, c)|)
            && Run(inputs, c).records == Wrap(Run(before, c).records as int + accepted)
  {
    var before, last := inputs[..|inputs| - 1], inputs[|inputs| - 1];
    var s := Run(before, c);
    SubmittedOne(inputs, c);
    RecordsOne(s, last, c);
    hide *;
    JournalOk(before, c);
    JournalOk(inputs, c);
    JournalStep(inputs, c);
    RunStep(inputs, c);
    StepAccepted(s, last, c);
    StepFlushes(s, last, c);
    FlushesIs(before, c);
    FlushesIs(inputs, c);
    CheckpointedLast(inputs, c);
  }

  lemma SubmittedOne(inputs: seq<Input>, c: Config)
    requires inputs != []
    ensures var before, last := inputs[..|inputs| - 1], inputs[|inputs| - 1];
            Accepted(inputs, c) == Accepted(before, c) + if Accepts(Run(before, c), last.order, c) then 1 else 0
  {
    hide Accepts;
  }

  lemma RecordsOne(s: State, input: Input, c: Config)
    ensures Step(s, input, c).records == Wrap(s.records as int + if Accepts(s, input.order, c) then 1 else 0)
  {
    hide Submit, Passes, Journaled, PositionAfter;
  }

  lemma FlushesIs(inputs: seq<Input>, c: Config)
    ensures Flushes(inputs, c) == |JournalSpec.Flushed(Run(inputs, c).log)| <= |JournalSpec.Written(Run(inputs, c).log)|
  {
  }

  lemma CheckpointedLast(inputs: seq<Input>, c: Config)
    requires inputs != []
    ensures Checkpointed(inputs, |inputs|, c) <==>
            && Accepts(Run(inputs[..|inputs| - 1], c), inputs[|inputs| - 1].order, c)
            && Run(inputs, c).records % 1000 == 0
  {
    assert inputs[..|inputs|] == inputs;
  }

  /** The count of records is the number of accepted orders, modulo 2^64. */
  lemma {:induction false} CountsAccepted(inputs: seq<Input>, c: Config)
    ensures Run(inputs, c).records == Accepted(inputs, c) % 0x1_0000_0000_0000_0000
  {
    hide *;
    if inputs == [] {
      NothingCounted(c);
    } else {
      var before := inputs[..|inputs| - 1];
      CountsAccepted(before, c);
      StepCounts(inputs, c);
      WrapIs(Accepted(before, c));
      WrapIs(Accepted(inputs, c));
      WrapAdd(Accepted(before, c), Accepted(inputs, c) - Accepted(before, c));
    }
  }

  /** The journal grows by at least one record for every accepted order. */
  lemma {:induction false} JournalGrows(inputs: seq<Input>, i: nat, c: Config)
    requires i <= |inputs|
    ensures Accepted(inputs[..i], c) <= Accepted(inputs, c)
    ensures Accepted(inputs, c) - Accepted(inputs[..i], c) <= |JournalOf(inputs, c)| - |JournalOf(inputs[..i], c)|
    decreases |inputs|
  {
    hide *;
    if i == |inputs| {
      assert inputs[..i] == inputs;
    } else {
      var before := inputs[..|inputs| - 1];
      JournalGrows(before, i, c);
      assert before[..i] == inputs[..i];
      StepCounts(inputs, c);
    }
  }

  lemma JournalGrowsBetween(inputs: seq<Input>, i: nat, j: nat, c: Config)
    requires i <= j <= |inputs|
    ensures Accepted(inputs[..i], c) <= Accepted(inputs[..j], c)
    ensures Accepted(inputs[..j], c) - Accepted(inputs[..i], c) <= |JournalOf(inputs[..j], c)| - |JournalOf(inputs[..i], c)|
  {
    hide *;
    assert inputs[..j][..i] == inputs[..i];
    JournalGrows(inputs[..j], i, c);
  }

  /** What is flushed covers all accepted orders but the last `records % 1000`. */
  lemma {:induction false} FlushedCovers(inputs: seq<Input>, c: Config) returns (j: nat)
    ensures j <= |inputs| && |JournalOf(inputs[..j], c)| <= Flushes(inputs, c)
    ensures Accepted(inputs, c) - Accepted(inputs[..j], c) == Run(inputs, c).records % 1000
  {
    hide *;
    j := 0;
    if inputs == [] {
      NothingCounted(c);
      assert inputs[..0] == [];
    } else {
      var before, last := inputs[..|inputs| - 1], inputs[|inputs| - 1];
      j := FlushedCovers(before, c);
      assert before[..j] == inputs[..j];
      StepCounts(inputs, c);
      CheckpointedLast(inputs, c);
      NextCount(Run(before, c).records);
      if Checkpointed(inputs, |inputs|, c) {
        j := |inputs|;
        assert inputs[..j] == inputs;
      }
    }
  }

  lemma NothingCounted(c: Config)
    ensures JournalOf([], c) == [] && Flushes([], c) == 0 && Accepted([], c) == 0 && Run([], c).records == 0
  {
  }

  lemma NextCount(records: u64)
    ensures Wrap(records as int + 1) % 1000 == 0 || Wrap(records as int + 1) % 1000 == records % 1000 + 1
    ensures Wrap(records as int + 0) == records
  {
  }

  /** What was written when a checkpoint was due stays flushed. */
  lemma {:induction false} CheckpointDurable(inputs: seq<Input>, j: nat, c: Config)
    requires Checkpointed(inputs, j, c)
    ensures |JournalOf(inputs[..j], c)| <= Flushes(inputs, c)
    decreases |inputs|
  {
    hide *;
    CheckpointedParts(inputs, c);
    StepCounts(inputs, c);
    if j == |inputs| {
      assert inputs[..j] == inputs;
    } else {
      var before := inputs[..|inputs| - 1];
      assert before[..j] == inputs[..j];
      CheckpointedBefore(inputs, j, c);
      CheckpointDurable(before, j, c);
    }
  }

  lemma CheckpointedBefore(inputs: seq<Input>, j: nat, c: Config)
    requires j < |inputs|
    ensures Checkpointed(inputs, j, c) <==> Checkpointed(inputs[..|inputs| - 1], j, c)
  {
    hide Run, Accepts;
    var before := inputs[..|inputs| - 1];
    assert before[..j] == inputs[..j];
    if j > 0 {
      assert before[..j - 1] == inputs[..j - 1];
    }
  }

  // ----- Every moment a run can end at -----

  /** How a run ends: closed, crashed between two orders, or crashed while its last order is being worked on. (A flush
      inside one journal write leaves the file as it is after that write.) */
  datatype Ending = Closed | Crashed | CutOff(reports: nat)

  predicate Reaches(inputs: seq<Input>, ending: Ending, c: Config) {
    ending.CutOff? ==>
      && inputs != [] && Accepts(Run(inputs[..|inputs| - 1], c), inputs[|inputs| - 1].order, c)
      && ending.reports <= |Submit(Run(inputs[..|inputs| - 1], c).book, inputs[|inputs| - 1].order).trades|
  }

  /** The orders worked on to the end. */
  function Finished(inputs: seq<Input>, ending: Ending): seq<Input> {
    if ending.CutOff? && inputs != [] then inputs[..|inputs| - 1] else inputs
  }

  function LogAt(inputs: seq<Input>, ending: Ending, c: Config): JournalSpec.Log
    requires Reaches(inputs, ending, c)
  {
    match ending
    case Closed => JournalSpec.Checkpoint(Run(inputs, c).log)
    case Crashed => Run(inputs, c).log
    case CutOff(reports) => Midway(Run(inputs[..|inputs| - 1], c), inputs[|inputs| - 1], reports)
  }

  lemma MidwayWrites(s: State, input: Input, reports: nat, c: Config)
    requires JournalSpec.LogOk(s.log) && Accepts(s, input.order, c)
    requires reports <= |Submit(s.book, input.order).trades|
    ensures var log := Midway(s, input, reports);
            && JournalSpec.LogOk(log) && |JournalSpec.Flushed(s.log)| <= |JournalSpec.Flushed(log)|
            && reports + 1 <= |StepPayloads(s, input, c)|
            && Payloads(JournalSpec.Written(log)) ==
               Payloads(JournalSpec.Written(s.log)) + StepPayloads(s, input, c)[..reports + 1]
  {
    hide JournalSpec.Write, JournalSpec.Flushed, JournalSpec.Written, JournalSpec.LogOk;
    hide Codec.EncodeTradeReport, Codec.EncodeNewOrder, Submit, Passes;
    var order := Codec.EncodeNewOrder(Codec.Sent(input.order));
    var log := LogOrder(s.log, input.order, input.times);
    var events := Stamp(Submit(s.book, input.order).trades, input.stamps);
    WriteOne(s.log, input.times(0), order);
    JournalSpec.WriteAppends(s.log, input.times(0), order);
    LogTradesWrites(log, events[..reports], input.times);
    TradesFlush(log, events[..reports], input.times);
    Associative(Payloads(JournalSpec.Written(s.log)), [order], Reports(events[..reports]));
    assert StepPayloads(s, input, c)[..reports + 1] == [order] + Reports(events[..reports]);
  }

  /** Whenever a run ends, its journal is well formed and holds the first records of the run, all of those of the finished
      orders and at least one of an order it was cut off in; nothing flushed before is taken back. */
  lemma LogAtHolds(inputs: seq<Input>, ending: Ending, c: Config)
    requires Reaches(inputs, ending, c)
    ensures var log := LogAt(inputs, ending, c);
            var w := |JournalSpec.Written(log)|;
            && JournalSpec.LogOk(log)
            && w <= |JournalOf(inputs, c)| && Payloads(JournalSpec.Written(log)) == JournalOf(inputs, c)[..w]
            && w >= |JournalOf(Finished(inputs, ending), c)| + (if ending.CutOff? then 1 else 0)
            && Flushes(Finished(inputs, ending), c) <= |JournalSpec.Flushed(log)|
            && (ending.Closed? ==> |JournalSpec.Flushed(log)| == |JournalOf(inputs, c)|)
  {
    JournalOk(inputs, c);
    if ending.CutOff? {
      hide Run, JournalSpec.LogOk, JournalSpec.Written, JournalSpec.Flushed, Midway, StepPayloads, Accepts;
      var before, last := inputs[..|inputs| - 1], inputs[|inputs| - 1];
      JournalOk(before, c);
      JournalStep(inputs, c);
      MidwayWrites(Run(before, c), last, ending.reports, c);
      var ps, step := JournalOf(before, c), StepPayloads(Run(before, c), last, c);
      assert (ps + step)[..|ps| + ending.reports + 1] == ps + step[..ending.reports + 1];
    } else {
      hide Run, JournalSpec.LogOk, JournalSpec.Written, JournalSpec.Flushed, JournalSpec.Checkpoint;
      JournalSpec.CheckpointFlushes(Run(inputs, c).log);
      assert JournalOf(inputs, c)[..|JournalOf(inputs, c)|] == JournalOf(inputs, c);
      FlushesIs(inputs, c);
    }
  }

  // ----- What survives -----

  /** `k` is the moment a run is taken back to: the least number of orders whose records cover what was flushed. */
  ghost predicate Survives(inputs: seq<Input>, ending: Ending, k: nat, c: Config)
    requires Reaches(inputs, ending, c)
  {
    var n := |JournalSpec.Flushed(LogAt(inputs, ending, c))|;
    k <= |inputs| && n <= |JournalOf(inputs[..k], c)| && (k > 0 ==> |JournalOf(inputs[..k - 1], c)| < n)
  }

  lemma SurvivesParts(inputs: seq<Input>, ending: Ending, k: nat, c: Config)
    requires Reaches(inputs, ending, c)
    ensures var n := |JournalSpec.Flushed(LogAt(inputs, ending, c))|;
            Survives(inputs, ending, k, c) <==>
            k <= |inputs| && n <= |JournalOf(inputs[..k], c)| && (k > 0 ==> |JournalOf(inputs[..k - 1], c)| < n)
  {
    hide Run, LogAt, JournalOf, Reaches;
  }

  lemma FinishedParts(inputs: seq<Input>, ending: Ending, c: Config)
    requires Reaches(inputs, ending, c)
    ensures var done := Finished(inputs, ending);
            && |done| <= |inputs| && done == inputs[..|done|]
            && (ending.CutOff? ==> inputs != [] && done == inputs[..|inputs| - 1])
            && (!ending.CutOff? ==> done == inputs)
  {
    assert inputs[..|inputs|] == inputs;
    hide Run, Accepts;
  }

  lemma {:induction false} RecordBytes(rs: seq<JournalSpec.Record>)
    requires forall i :: 0 <= i < |rs| ==> |rs[i].payload| >= Codec.NEW_ORDER_SIZE
    ensures |JournalSpec.EncodeRecords(rs)| >= (JournalSpec.HEADER + Codec.NEW_ORDER_SIZE) * |rs|
  {
    if rs != [] {
      RecordBytes(rs[1..]);
      JournalSpec.EncodeCons(rs);
    }
  }

  lemma PendingLong(log: JournalSpec.Log)
    requires forall p :: p in Payloads(JournalSpec.Written(log)) ==> Codec.NEW_ORDER_SIZE <= |p|
    ensures forall i :: 0 <= i < |log.pending| ==> |log.pending[i].payload| >= Codec.NEW_ORDER_SIZE
    ensures |JournalSpec.Written(log)| - |JournalSpec.Flushed(log)| == |log.pending|
  {
    var rs := log.pending;
    forall i | 0 <= i < |rs|
      ensures |rs[i].payload| >= Codec.NEW_ORDER_SIZE
    {
      assert JournalSpec.Written(log)[|JournalSpec.Flushed(log)| + i] == rs[i];
      assert rs[i].payload == Payloads(JournalSpec.Written(log))[|JournalSpec.Flushed(log)| + i];
    }
  }

  lemma PendingFits(log: JournalSpec.Log)
    requires JournalSpec.LogOk(log)
    ensures |JournalSpec.EncodeRecords(log.pending)| <= JournalSpec.BLOCK
  {
  }

  lemma PendingFew(log: JournalSpec.Log)
    requires JournalSpec.LogOk(log)
    requires forall p :: p in Payloads(JournalSpec.Written(log)) ==> Codec.NEW_ORDER_SIZE <= |p|
    ensures |JournalSpec.Written(log)| - |JournalSpec.Flushed(log)| <= 80
  {
    hide *;
    PendingLong(log);
    PendingFits(log);
    RecordBytes(log.pending);
    BufferedIs(|log.pending|);
  }

  /** A block of 4096 bytes holds eighty of the shortest records, 51 bytes each. */
  lemma BufferedIs(n: nat)
    ensures (JournalSpec.HEADER + Codec.NEW_ORDER_SIZE) * n <= JournalSpec.BLOCK ==> n <= 80
  {
  }

  lemma BufferBound(inputs: seq<Input>, ending: Ending, k: nat, c: Config)
    requires Reaches(inputs, ending, c) && Survives(inputs, ending, k, c)
    ensures Accepted(inputs, c) - Accepted(inputs[..k], c) <= 80
  {
    hide *;
    var log := LogAt(inputs, ending, c);
    SurvivesParts(inputs, ending, k, c);
    FinishedParts(inputs, ending, c);
    LogAtHolds(inputs, ending, c);
    JournalReadable(inputs, c);
    PendingFew(log);
    if ending.CutOff? {
      StepCounts(inputs, c);
      if k < |inputs| {
        JournalGrowsBetween(inputs, k, |inputs| - 1, c);
      } else {
        assert inputs[..k] == inputs;
      }
    } else {
      JournalGrows(inputs, k, c);
    }
  }

  lemma CheckpointedParts(inputs: seq<Input>, c: Config)
    ensures forall j: nat :: Checkpointed(inputs, j, c) ==> 0 < j <= |inputs|
  {
    hide Run, Accepts;
  }

  lemma CheckpointedIs(inputs: seq<Input>, j: nat, c: Config)
    requires 0 < j <= |inputs| && Accepts(Run(inputs[..j - 1], c), inputs[j - 1].order, c)
    requires Run(inputs[..j], c).records % 1000 == 0
    ensures Checkpointed(inputs, j, c)
  {
    hide Run, Accepts;
  }

  /** Every order up to the last accepted one whose number is a multiple of a thousand survives; of the accepted ones after
      it, at most eighty, as many as fit the buffer, are lost. */
  lemma CrashLoses(inputs: seq<Input>, ending: Ending, k: nat, c: Config)
    requires Reaches(inputs, ending, c) && Survives(inputs, ending, k, c)
    ensures forall j :: 0 < j <= |Finished(inputs, ending)| ==>
              Accepts(Run(inputs[..j - 1], c), inputs[j - 1].order, c) && Run(inputs[..j], c).records % 1000 == 0 ==> j <= k
    ensures Accepted(inputs, c) - Accepted(inputs[..k], c) <= 80
    ensures Accepted(inputs, c) - Accepted(inputs[..k], c) <=
            Run(Finished(inputs, ending), c).records % 1000 + if ending.CutOff? then 1 else 0
  {
    hide *;
    var done := Finished(inputs, ending);
    SurvivesParts(inputs, ending, k, c);
    FinishedParts(inputs, ending, c);
    BufferBound(inputs, ending, k, c);
    LogAtHolds(inputs, ending, c);
    CheckpointedParts(done, c);
    var last := FlushedCovers(done, c);
    assert done[..last] == inputs[..last];
    if ending.CutOff? {
      StepCounts(inputs, c);
    }
    if k < last {
      JournalGrowsBetween(inputs, k, last, c);
    } else {
      JournalGrowsBetween(inputs, last, k, c);
    }
    forall j | 0 < j <= |done| && Accepts(Run(inputs[..j - 1], c), inputs[j - 1].order, c)
               && Run(inputs[..j], c).records % 1000 == 0
      ensures j <= k
    {
      assert done[..j] == inputs[..j] && done[..j - 1] == inputs[..j - 1] && done[j - 1] == inputs[j - 1];
      CheckpointedIs(done, j, c);
      CheckpointDurable(done, j, c);
      CheckpointGrows(done, j, c);
      if k < j {
        JournalGrowsBetween(inputs, k, j - 1, c);
      }
    }
  }

  /** The order behind which a checkpoint was due left a record. */
  lemma CheckpointGrows(inputs: seq<Input>, j: nat, c: Config)
    requires Checkpointed(inputs, j, c)
    ensures |JournalOf(inputs[..j - 1], c)| < |JournalOf(inputs[..j], c)|
  {
    hide Run, Accepts, JournalOf, Flushes, Accepted;
    StepCounts(inputs[..j], c);
    assert inputs[..j][..j - 1] == inputs[..j - 1] && inputs[..j][j - 1] == inputs[j - 1];
  }

  /** Recovery from the bytes of the file whenever a run ends, inside an order too, zero-filled behind the written part: they
      rebuild the book as it was after the `k` orders that survive; once the journal is closed, the live book itself. */
  lemma Recovery(inputs: seq<Input>, ending: Ending, c: Config, z: nat) returns (k: nat)
    requires Unfilled(inputs, c) && Reaches(inputs, ending, c)
    ensures Survives(inputs, ending, k, c)
    ensures var log := LogAt(inputs, ending, c);
            && JournalSpec.LogOk(log)
            && Rebuild(Payloads(JournalSpec.Replay(JournalSpec.EncodeBlocks(log.blocks) + Zeros(z))), c.capacity)
               == Some(Run(inputs[..k], c).book)
    ensures ending.Closed? ==> Run(inputs[..k], c).book == Run(inputs, c).book
  {
    hide *;
    var log := LogAt(inputs, ending, c);
    var n := |JournalSpec.Flushed(log)|;
    LogAtHolds(inputs, ending, c);
    JournalReadable(inputs, c);
    ReadsFlushed(log, z);
    FlushedFirst(log);
    assert JournalOf(inputs, c)[..|JournalSpec.Written(log)|][..n] == JournalOf(inputs, c)[..n];
    k := PrefixRebuilds(inputs, c, n);
    SurvivesParts(inputs, ending, k, c);
    if ending.Closed? {
      JournalRebuildsBook(inputs, c);
      assert JournalOf(inputs, c)[..n] == JournalOf(inputs, c);
    }
  }

  lemma FlushedFirst(log: JournalSpec.Log)
    ensures var ps, n := Payloads(JournalSpec.Written(log)), |JournalSpec.Flushed(log)|;
            n <= |ps| && Payloads(JournalSpec.Flushed(log)) == ps[..n]
  {
  }

  // ----- Orders that come in partly filled -----

  lemma SentIgnores(e: Entry)
    ensures Codec.Sent(e) == Codec.Sent(e.(remaining := e.qty))
  {
  }

  /** The record of an order keeps its full quantity: replayed into any book with a free slot, it does what the order itself
      does if and only if nothing of the order was filled. */
  lemma ReplaysItself(b: Book, e: Entry, capacity: nat)
    requires b.Count() < capacity && -I63 <= e.price < I63
    ensures ReplayOne(b, Codec.EncodeNewOrder(Codec.Sent(e)), capacity) == Some(Submit(b, e).book)
            <==> e.remaining == e.qty
  {
    hide *;
    var full := e.(remaining := e.qty);
    WholeFull(e);
    SentIgnores(e);
    ReplayOrder(b, full, capacity);
    SubmitMovesNet(b, e);
    SubmitMovesNet(b, full);
  }

  lemma WholeFull(e: Entry)
    requires -I63 <= e.price < I63
    ensures Whole(e.(remaining := e.qty))
  {
  }

  /** The journal after `m` orders rebuilds the book after `m` orders. */
  predicate RebuiltAt(inputs: seq<Input>, m: nat, c: Config)
    requires m <= |inputs|
  {
    Rebuild(JournalOf(inputs[..m], c), c.capacity) == Some(Run(inputs[..m], c).book)
  }

  ghost predicate RebuiltThroughout(inputs: seq<Input>, c: Config) {
    forall m: nat :: m <= |inputs| ==> RebuiltAt(inputs, m, c)
  }

  lemma ThroughoutParts(inputs: seq<Input>, c: Config)
    requires inputs != []
    ensures RebuiltThroughout(inputs, c) <==>
            && RebuiltThroughout(inputs[..|inputs| - 1], c)
            && Rebuild(JournalOf(inputs, c), c.capacity) == Some(Run(inputs, c).book)
  {
    hide Run, Rebuild, JournalOf;
    var before := inputs[..|inputs| - 1];
    assert inputs[..|inputs|] == inputs;
    assert RebuiltAt(inputs, |inputs|, c) <==> Rebuild(JournalOf(inputs, c), c.capacity) == Some(Run(inputs, c).book);
    forall m: nat | m <= |before|
      ensures RebuiltAt(before, m, c) <==> RebuiltAt(inputs, m, c)
    {
      assert before[..m] == inputs[..m];
    }
  }

  lemma ThroughoutNothing(c: Config)
    ensures RebuiltThroughout([], c)
  {
    RunNothing(c);
    hide Run, Rebuild, JournalOf;
    var none: seq<Input> := [];
    assert none[..0] == none;
  }

  /** Exactly when replay is deterministic: at every moment of a run the journal rebuilds the live book, if and only if every
      accepted order comes in unfilled. */
  lemma {:induction false} RebuiltThroughoutIff(inputs: seq<Input>, c: Config)
    requires forall i :: 0 <= i < |inputs| ==> -I63 <= inputs[i].order.price < I63
    ensures Unfilled(inputs, c) <==> RebuiltThroughout(inputs, c)
  {
    hide *;
    if inputs == [] {
      UnfilledNothing(c);
      ThroughoutNothing(c);
    } else {
      RebuiltThroughoutIff(inputs[..|inputs| - 1], c);
      UnfilledParts(inputs, c);
      ThroughoutParts(inputs, c);
      if Unfilled(inputs[..|inputs| - 1], c) {
        RebuiltLast(inputs, c);
      }
    }
  }

  lemma RebuiltLast(inputs: seq<Input>, c: Config)
    requires inputs != [] && Unfilled(inputs[..|inputs| - 1], c) && -I63 <= inputs[|inputs| - 1].order.price < I63
    ensures var before, last := inputs[..|inputs| - 1], inputs[|inputs| - 1];
            Rebuild(JournalOf(inputs, c), c.capacity) == Some(Run(inputs, c).book) <==>
            (Accepts(Run(before, c), last.order, c) ==> Whole(last.order))
  {
    var before, last := inputs[..|inputs| - 1], inputs[|inputs| - 1];
    var s := Run(before, c);
    assert Whole(last.order) <==> last.order.remaining == last.order.qty;
    hide *;
    JournalRebuildsBook(before, c);
    RunStep(inputs, c);
    JournalStep(inputs, c);
    StepAccepted(s, last, c);
    var ps, step := JournalOf(before, c), StepPayloads(s, last, c);
    if Accepts(s, last.order, c) {
      RebuildStep(ps, s, last, c, |step|);
      assert step[..|step|] == step;
      ReplaysItself(s.book, last.order, c.capacity);
    } else {
      Nothing(ps);
    }
  }
}
