/** One order through the engine as a function of its state, what it writes to the journal, and what whole runs keep: the
    position stays in its band, the book stays consistent and uncrossed. */
module EngineSpec {
  import opened Types
  import opened Sequences
  import opened ByteType
  import opened BookSpec
  import opened Risk
  import JournalSpec
  import BookRuns
  import Codec

  /** An order from the inbound ring, with its timestamp and the clock readings of its step: `stamps` for its trades,
      `times` for its journal records. */
  datatype Input = Input(order: Entry, arrived: u64, stamps: Clock, times: Clock)

  datatype Config = Config(limits: Limits, capacity: nat)

  datatype State = State(active: bool, book: Book, position: i64, rejected: u64, log: JournalSpec.Log,
                         records: u64, orders: u64)

  const START := State(true, EMPTY, 0, 0, JournalSpec.FRESH, 0, 0)
  const CHECKPOINT_EVERY: nat := 1000

  predicate Gate(s: State, e: Entry, c: Config) {
    s.active && Passes(c.limits, s.position, e.side, e.price, e.qty)
  }

  predicate Accepts(s: State, e: Entry, c: Config) {
    Gate(s, e, c) && s.book.Count() < c.capacity
  }

  /** One journal record per trade, behind the record of the order. */
  function LogTrades(log: JournalSpec.Log, events: seq<TradeEvent>, times: Clock): JournalSpec.Log {
    if events == [] then log
    else
      JournalSpec.Write(LogTrades(log, events[..|events| - 1], times), times(|events|),
                        Codec.EncodeTradeReport(events[|events| - 1]))
  }

  function LogOrder(log: JournalSpec.Log, e: Entry, times: Clock): JournalSpec.Log {
    JournalSpec.Write(log, times(0), Codec.EncodeNewOrder(Codec.Sent(e)))
  }

  function Journaled(s: State, input: Input): JournalSpec.Log {
    LogTrades(LogOrder(s.log, input.order, input.times), Stamp(Submit(s.book, input.order).trades, input.stamps),
              input.times)
  }

  /** The journal while an accepted order is being worked on: its record and the first `reports` trade reports are written. */
  function Midway(s: State, input: Input, reports: nat): JournalSpec.Log
    requires reports <= |Submit(s.book, input.order).trades|
  {
    LogTrades(LogOrder(s.log, input.order, input.times),
              Stamp(Submit(s.book, input.order).trades, input.stamps)[..reports], input.times)
  }

  /** A checkpoint, when the count of orders calls for one. */
  function Due(records: u64, log: JournalSpec.Log): JournalSpec.Log {
    if records % CHECKPOINT_EVERY == 0 then JournalSpec.Checkpoint(log) else log
  }

  /** The body of the engine loop on one order. */
  function Step(s: State, input: Input, c: Config): State {
    var e := input.order;
    if !s.active then s
    else if !Gate(s, e, c) then s.(rejected := Wrap(s.rejected as int + 1))
    else if !Accepts(s, e, c) then s
    else
      var out := Submit(s.book, e);
      var records := Wrap(s.records as int + 1);
      s.(book := out.book, position := PositionAfter(s.position, e.side, out.trades),
         log := Due(records, Journaled(s, input)), records := records, orders := Wrap(s.orders as int + 1))
  }

  function Run(inputs: seq<Input>, c: Config): State {
    if inputs == [] then START else Step(Run(inputs[..|inputs| - 1], c), inputs[|inputs| - 1], c)
  }

  // ----- What a step writes -----

  function Payloads(rs: seq<JournalSpec.Record>): (ps: seq<seq<byte>>)
    ensures |ps| == |rs| && forall i :: 0 <= i < |ps| ==> ps[i] == rs[i].payload
  {
    seq(|rs|, i requires 0 <= i < |rs| => rs[i].payload)
  }

  function Reports(events: seq<TradeEvent>): (ps: seq<seq<byte>>)
    ensures |ps| == |events| && forall i :: 0 <= i < |ps| ==> ps[i] == Codec.EncodeTradeReport(events[i])
  {
    seq(|events|, i requires 0 <= i < |events| => Codec.EncodeTradeReport(events[i]))
  }

  function StepPayloads(s: State, input: Input, c: Config): seq<seq<byte>> {
    if !Accepts(s, input.order, c) then []
    else
      [Codec.EncodeNewOrder(Codec.Sent(input.order))]
      + Reports(Stamp(Submit(s.book, input.order).trades, input.stamps))
  }

  lemma WriteOne(log: JournalSpec.Log, now: u64, payload: seq<byte>)
    requires JournalSpec.LogOk(log) && JournalSpec.Acceptable(payload)
    ensures JournalSpec.LogOk(JournalSpec.Write(log, now, payload))
    ensures Payloads(JournalSpec.Written(JournalSpec.Write(log, now, payload))) ==
            Payloads(JournalSpec.Written(log)) + [payload]
  {
    hide JournalSpec.Write, JournalSpec.Written;
    JournalSpec.WriteAppends(log, now, payload);
  }

  lemma {:induction false} LogTradesWrites(log: JournalSpec.Log, events: seq<TradeEvent>, times: Clock)
    requires JournalSpec.LogOk(log)
    ensures JournalSpec.LogOk(LogTrades(log, events, times))
    ensures Payloads(JournalSpec.Written(LogTrades(log, events, times))) ==
            Payloads(JournalSpec.Written(log)) + Reports(events)
    decreases |events|
  {
    hide JournalSpec.Write, JournalSpec.Written, JournalSpec.LogOk, Codec.EncodeTradeReport;
    if events == [] {
      assert Payloads(JournalSpec.Written(log)) + Reports(events) == Payloads(JournalSpec.Written(log));
    } else {
      var front, last := events[..|events| - 1], events[|events| - 1];
      LogTradesWrites(log, front, times);
      WriteOne(LogTrades(log, front, times), times(|events|), Codec.EncodeTradeReport(last));
      assert Reports(events) == Reports(front) + [Codec.EncodeTradeReport(last)];
    }
  }

  /** An accepted order leaves its own record and one per trade, in that order; a rejected or dropped one leaves
      nothing. */
  lemma StepWrites(s: State, input: Input, c: Config)
    requires JournalSpec.LogOk(s.log)
    ensures var s' := Step(s, input, c);
            && JournalSpec.LogOk(s'.log)
            && Payloads(JournalSpec.Written(s'.log)) ==
               Payloads(JournalSpec.Written(s.log)) + StepPayloads(s, input, c)
  {
    hide JournalSpec.Write, JournalSpec.Written, JournalSpec.LogOk, JournalSpec.Checkpoint;
    hide Codec.EncodeTradeReport, Codec.EncodeNewOrder, Submit, Passes, PositionAfter;
    if Accepts(s, input.order, c) {
      var log := LogOrder(s.log, input.order, input.times);
      var events := Stamp(Submit(s.book, input.order).trades, input.stamps);
      WriteOne(s.log, input.times(0), Codec.EncodeNewOrder(Codec.Sent(input.order)));
      LogTradesWrites(log, events, input.times);
      JournalSpec.CheckpointFlushes(Journaled(s, input));
      Associative(Payloads(JournalSpec.Written(s.log)), [Codec.EncodeNewOrder(Codec.Sent(input.order))], Reports(events));
    } else {
      Nothing(Payloads(JournalSpec.Written(s.log)));
    }
  }

  lemma WriteRecord(log: JournalSpec.Log, now: u64, payload: seq<byte>)
    requires JournalSpec.LogOk(log) && 0 < |payload| <= 4078
    ensures JournalSpec.LogOk(JournalSpec.Write(log, now, payload))
    ensures JournalSpec.Written(JournalSpec.Write(log, now, payload)) ==
            JournalSpec.Written(log) + [JournalSpec.Record(Wrap(|JournalSpec.Written(log)|), now, payload)]
  {
    hide JournalSpec.Write, JournalSpec.Written, JournalSpec.LogOk;
    JournalSpec.WriteAppends(log, now, payload);
  }

  lemma {:induction false} TradeRecords(log: JournalSpec.Log, events: seq<TradeEvent>, times: Clock)
    requires JournalSpec.LogOk(log)
    ensures JournalSpec.LogOk(LogTrades(log, events, times))
    ensures var rs, w := JournalSpec.Written(LogTrades(log, events, times)), |JournalSpec.Written(log)|;
            && |rs| == w + |events| && rs[..w] == JournalSpec.Written(log)
            && forall k: nat :: k < |events| ==>
                 rs[w + k] == JournalSpec.Record(Wrap(w + k), times(k + 1), Codec.EncodeTradeReport(events[k]))
    decreases |events|
  {
    hide JournalSpec.Write, JournalSpec.Written, JournalSpec.LogOk, Codec.EncodeTradeReport, Wrap;
    if events == [] {
    } else {
      var front, last := events[..|events| - 1], events[|events| - 1];
      TradeRecords(log, front, times);
      WriteRecord(LogTrades(log, front, times), times(|events|), Codec.EncodeTradeReport(last));
    }
  }

  /** The records an accepted order leaves: its own and one per trade, in the order of the trades, numbered on from those
      before, each with the clock reading of its own write. */
  lemma StepRecords(s: State, input: Input, c: Config)
    requires JournalSpec.LogOk(s.log) && Accepts(s, input.order, c)
    ensures var rs, w := JournalSpec.Written(Step(s, input, c).log), |JournalSpec.Written(s.log)|;
            var ts := Submit(s.book, input.order).trades;
            && |rs| == w + 1 + |ts| && rs[..w] == JournalSpec.Written(s.log)
            && rs[w] == JournalSpec.Record(Wrap(w), input.times(0), Codec.EncodeNewOrder(Codec.Sent(input.order)))
            && forall k: nat :: k < |ts| ==>
                 rs[w + 1 + k] == JournalSpec.Record(Wrap(w + 1 + k), input.times(k + 1),
                                                     Codec.EncodeTradeReport(TradeEvent(ts[k], input.stamps(k))))
  {
    hide JournalSpec.Write, JournalSpec.Written, JournalSpec.LogOk, JournalSpec.Checkpoint;
    hide Codec.EncodeTradeReport, Codec.EncodeNewOrder, Submit, Passes, PositionAfter, Wrap;
    var log := LogOrder(s.log, input.order, input.times);
    WriteRecord(s.log, input.times(0), Codec.EncodeNewOrder(Codec.Sent(input.order)));
    TradeRecords(log, Stamp(Submit(s.book, input.order).trades, input.stamps), input.times);
    JournalSpec.CheckpointFlushes(Journaled(s, input));
    assert JournalSpec.Written(log)[..|JournalSpec.Written(s.log)|] == JournalSpec.Written(s.log);
  }

  /** The journal is flushed behind every thousandth accepted order, and behind no other: there the step leaves the log to
      what its writes alone make of it. An order that is not accepted leaves journal and count alone. */
  lemma CheckpointEveryThousand(s: State, input: Input, c: Config)
    requires JournalSpec.LogOk(s.log)
    ensures var s', log := Step(s, input, c), Journaled(s, input);
            && (!Accepts(s, input.order, c) ==> s'.records == s.records && s'.log == s.log)
            && (Accepts(s, input.order, c) ==>
                  && s'.records == (s.records + 1) % 0x1_0000_0000_0000_0000
                  && (s'.records % 1000 == 0 ==>
                        JournalSpec.Flushed(s'.log) == JournalSpec.Written(s'.log) == JournalSpec.Written(log))
                  && (s'.records % 1000 != 0 ==> s'.log == log))
  {
    hide JournalSpec.Write, JournalSpec.Flushed, JournalSpec.Written, JournalSpec.LogOk, JournalSpec.Checkpoint;
    hide Codec.EncodeTradeReport, Codec.EncodeNewOrder, Submit, Passes, PositionAfter;
    if Accepts(s, input.order, c) {
      var order := Codec.EncodeNewOrder(Codec.Sent(input.order));
      WriteOne(s.log, input.times(0), order);
      LogTradesWrites(LogOrder(s.log, input.order, input.times), Stamp(Submit(s.book, input.order).trades, input.stamps),
                      input.times);
      JournalSpec.CheckpointFlushes(Journaled(s, input));
    }
  }

  lemma RunStep(inputs: seq<Input>, c: Config)
    requires inputs != []
    ensures Run(inputs, c) == Step(Run(inputs[..|inputs| - 1], c), inputs[|inputs| - 1], c)
  {
    hide Step;
  }

  // ----- Position -----

  /** The position never leaves its band: not after any order of any run, and not after any single fill of the next
      one. */
  lemma {:induction false} PositionSafe(inputs: seq<Input>, c: Config)
    requires Headroom(c.limits)
    requires forall i :: 0 <= i < |inputs| ==> inputs[i].order.remaining <= inputs[i].order.qty
    ensures Within(c.limits, Run(inputs, c).position)
  {
    if inputs != [] {
      var before, last := inputs[..|inputs| - 1], inputs[|inputs| - 1];
      PositionSafe(before, c);
      var s := Run(before, c);
      if Accepts(s, last.order, c) {
        var ts := Submit(s.book, last.order).trades;
        FillsStayWithin(c.limits, s.position, last.order, s.book, |ts|);
        assert ts[..|ts|] == ts;
      }
    }
  }

  lemma EveryFillSafe(inputs: seq<Input>, c: Config, e: Entry, n: nat)
    requires Headroom(c.limits)
    requires forall i :: 0 <= i < |inputs| ==> inputs[i].order.remaining <= inputs[i].order.qty
    requires e.remaining <= e.qty && Accepts(Run(inputs, c), e, c)
    requires n <= |Submit(Run(inputs, c).book, e).trades|
    ensures Within(c.limits, PositionAfter(Run(inputs, c).position, e.side, Submit(Run(inputs, c).book, e).trades[..n]))
  {
    PositionSafe(inputs, c);
    FillsStayWithin(c.limits, Run(inputs, c).position, e, Run(inputs, c).book, n);
  }

  // ----- The engine's runs are runs of the exchange -----

  /** The orders that reach the book. */
  function Submitted(inputs: seq<Input>, c: Config): seq<BookRuns.Op> {
    if inputs == [] then []
    else
      var before, last := inputs[..|inputs| - 1], inputs[|inputs| - 1];
      if Accepts(Run(before, c), last.order, c) then Submitted(before, c) + [BookRuns.Op.Submit(last.order)]
      else Submitted(before, c)
  }

  /** No accepted order brings an id into the book a second time. */
  ghost predicate DistinctIds(inputs: seq<Input>, c: Config) {
    inputs != [] ==>
      var before, last := inputs[..|inputs| - 1], inputs[|inputs| - 1];
      DistinctIds(before, c) && (Accepts(Run(before, c), last.order, c) ==> StaysDistinct(Run(before, c).book, last.order))
  }

  lemma {:induction false} DistinctAt(inputs: seq<Input>, i: nat, c: Config)
    requires DistinctIds(inputs, c) && i < |inputs|
    ensures DistinctIds(inputs[..i], c)
    ensures Accepts(Run(inputs[..i], c), inputs[i].order, c) ==> StaysDistinct(Run(inputs[..i], c).book, inputs[i].order)
    decreases |inputs|
  {
    hide Accepts, StaysDistinct;
    if i < |inputs| - 1 {
      var before := inputs[..|inputs| - 1];
      DistinctAt(before, i, c);
      assert before[..i] == inputs[..i];
    }
  }

  /** So price-time priority, distinct ids and the quantity ledger hold of them, and the book is never crossed. */
  lemma {:induction false} EngineRuns(inputs: seq<Input>, c: Config)
    requires DistinctIds(inputs, c)
    ensures var ops := Submitted(inputs, c);
            && BookRuns.LegalRun(ops, c.capacity) && BookRuns.TameRun(ops, c.capacity)
            && BookRuns.After(ops, c.capacity).book == Run(inputs, c).book
            && BookRuns.Invariant(BookRuns.After(ops, c.capacity), c.capacity)
            && BookRuns.Uncrossed(Run(inputs, c).book)
  {
    hide *;
    var ops := Submitted(inputs, c);
    if inputs == [] {
      NothingSubmitted(c);
    } else {
      DistinctAt(inputs, |inputs| - 1, c);
      EngineRuns(inputs[..|inputs| - 1], c);
      SubmittedStep(inputs, c);
    }
    BookRuns.RunKeeps(ops, c.capacity);
    BookRuns.NeverCrossed(ops, c.capacity);
  }

  lemma NothingSubmitted(c: Config)
    ensures Submitted([], c) == [] && BookRuns.LegalRun([], c.capacity) && BookRuns.TameRun([], c.capacity)
    ensures BookRuns.After([], c.capacity).book == Run([], c).book
  {
  }

  /** One more order is one more `Submit`, or no step at all. */
  lemma SubmittedStep(inputs: seq<Input>, c: Config)
    requires inputs != [] && DistinctIds(inputs, c)
    requires var ops := Submitted(inputs[..|inputs| - 1], c);
             && BookRuns.LegalRun(ops, c.capacity) && BookRuns.TameRun(ops, c.capacity)
             && BookRuns.After(ops, c.capacity).book == Run(inputs[..|inputs| - 1], c).book
    ensures var ops := Submitted(inputs, c);
            && BookRuns.LegalRun(ops, c.capacity) && BookRuns.TameRun(ops, c.capacity)
            && BookRuns.After(ops, c.capacity).book == Run(inputs, c).book
  {
    hide Passes, Submit, PositionAfter, Journaled, Due, StaysDistinct, Matched;
    var before, last := inputs[..|inputs| - 1], inputs[|inputs| - 1];
    var ops := Submitted(inputs, c);
    if Accepts(Run(before, c), last.order, c) {
      assert ops[..|ops| - 1] == Submitted(before, c) && ops[|ops| - 1] == BookRuns.Op.Submit(last.order);
    }
  }
}
