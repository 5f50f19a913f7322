/** The engine loop on the heap: risk gate, pool, journal, matching and fills, proved to be the step function. */
module Engines {
  import opened Types
  import opened BookSpec
  import opened ObjectPool
  import opened OrderBooks
  import opened LevelMaps
  import opened Matching
  import opened Risk
  import opened Journals
  import opened EngineSpec
  import opened ByteType
  import JournalSpec
  import Codec

  class Engine {
    const book: OrderBook
    const matcher: MatchingEngine
    const risk: RiskChecker
    const journal: Journal
    var active: bool
    var journalRecordCount: u64
    var orderCount: u64

    ghost function Settings(): Config {
      Config(risk.limits, book.pool.capacity)
    }

    /** What the engine owns besides the book. */
    ghost function Parts(): set<object> {
      {this, risk, journal, journal.writeBuf}
    }

    /** The state of the loop. */
    ghost function Abs(): State
      reads this, risk, journal, book.bids, book.asks, book.bids.members, book.asks.members
    {
      State(active, book.Abs(), risk.netPosition, risk.ordersRejected, journal.log, journalRecordCount, orderCount)
    }

    ghost predicate Valid()
      reads this, risk, journal, journal.writeBuf
      reads book, book.bids, book.asks, book.bids.nodes, book.asks.nodes, book.bids.members, book.asks.members
      reads book.pool, book.pool.freeList
    {
      matcher.book == book && book.Valid() && journal.Valid() && Parts() !! book.Repr()
    }

    /** An engine with an empty book and a fresh journal, its session open. */
    constructor (limits: Limits, capacity: nat)
      ensures Valid() && Abs() == START && Settings() == Config(limits, capacity)
      ensures fresh(Parts()) && fresh(book.Repr())
    {
      hide *;
      risk := new RiskChecker(limits);
      journal := new Journal();
      var b := new OrderBook(capacity);
      book := b;
      matcher := new MatchingEngine(b);
      active := true;
      journalRecordCount, orderCount := 0, 0;
      new;
      book.ReprIs();
      ValidFromBook();
      AbsIs();
      StartIs();
    }

    /** Journals the inbound order. */
    method JournalOrder(e: Entry, times: Clock)
      requires journal.Valid()
      modifies journal, journal.writeBuf
      ensures journal.Valid() && journal.log == LogOrder(old(journal.log), e, times)
    {
      hide *;
      Codec.Sizes();
      var wire := new byte[128];
      var n := Codec.PutNewOrder(wire, Codec.Sent(e));
      if n > 0 {
        journal.Write(wire[..n], times(0));
      }
      LogOrderIs(old(journal.log), e, times);
    }

    /** Updates the position and journals a report for every trade. */
    method Fill(side: Side, trades: seq<TradeEvent>, ghost done: seq<Trade>, ghost stamps: Clock, times: Clock)
      requires journal.Valid() && trades == Stamp(done, stamps) && risk as object != journal
      modifies risk`netPosition, journal, journal.writeBuf
      ensures journal.Valid() && journal.log == LogTrades(old(journal.log), trades, times)
      ensures risk.netPosition == PositionAfter(old(risk.netPosition), side, done)
    {
      hide *;
      Codec.Sizes();
      FillStart(old(risk.netPosition), side, done, old(journal.log), trades, times);
      for i := 0 to |trades|
        invariant journal.Valid() && journal.log == LogTrades(old(journal.log), trades[..i], times)
        invariant risk.netPosition == PositionAfter(old(risk.netPosition), side, done[..i])
      {
        risk.OnFill(side, trades[i].trade.qty);
        var wire := new byte[128];
        var n := Codec.PutTradeReport(wire, trades[i]);
        if n > 0 {
          journal.Write(wire[..n], times(i + 1));
        }
        FillStep(old(risk.netPosition), side, done, old(journal.log), trades, times, i);
      }
      assert trades[..|trades|] == trades && done[..|done|] == done;
    }

    /** Counts the order, with a checkpoint every thousand. */
    method Account()
      requires journal.Valid()
      modifies `journalRecordCount, `orderCount, journal, journal.writeBuf
      ensures journalRecordCount == Wrap(old(journalRecordCount) as int + 1)
      ensures orderCount == Wrap(old(orderCount) as int + 1)
      ensures journal.Valid() && journal.log == Due(journalRecordCount, old(journal.log))
      ensures journalRecordCount % 1000 == 0 ==>
              JournalSpec.Flushed(journal.log) == JournalSpec.Written(journal.log) == JournalSpec.Written(old(journal.log))
      ensures journalRecordCount % 1000 != 0 ==> journal.log == old(journal.log)
    {
      hide *;
      journal.FileIs();
      DueIs(Wrap(journalRecordCount as int + 1), journal.log);
      journalRecordCount := Wrap(journalRecordCount as int + 1);
      if journalRecordCount % 1000 == 0 {
        journal.Checkpoint();
      }
      orderCount := Wrap(orderCount as int + 1);
    }

    /** Everything that follows the match. */
    method Post(side: Side, trades: seq<TradeEvent>, ghost done: seq<Trade>, ghost stamps: Clock, times: Clock)
      requires journal.Valid() && trades == Stamp(done, stamps) && risk as object != journal
      modifies risk`netPosition, journal, journal.writeBuf, `journalRecordCount, `orderCount
      ensures journal.Valid() && journal.log == Due(journalRecordCount, LogTrades(old(journal.log), trades, times))
      ensures risk.netPosition == PositionAfter(old(risk.netPosition), side, done)
      ensures journalRecordCount == Wrap(old(journalRecordCount) as int + 1)
      ensures orderCount == Wrap(old(orderCount) as int + 1)
    {
      hide *;
      Fill(side, trades, done, stamps, times);
      Account();
    }

    lemma ValidParts()
      requires Valid()
      ensures matcher.book == book && book.Valid() && book.Core({}) && journal.Valid() && Parts() !! book.Repr()
      ensures book.bestBid == book.bids.Begin() && book.bestAsk == book.asks.Begin()
      ensures Parts() == {this, risk, journal, journal.writeBuf}
      ensures Settings() == Config(risk.limits, book.pool.capacity)
    {
    }

    lemma ValidFromBook()
      requires matcher.book == book && journal.Valid() && {this, risk, journal, journal.writeBuf} !! book.Repr()
      ensures (Valid() <==> book.Valid()) && Parts() == {this, risk, journal, journal.writeBuf}
      ensures Settings() == Config(risk.limits, book.pool.capacity)
    {
    }

    lemma BookParts()
      requires book.Standing()
      ensures forall n :: n in book.bids.nodes || n in book.asks.nodes ==> n in book.Repr()
      ensures forall o :: o in book.bids.members || o in book.asks.members ==> o in book.Repr()
      ensures {book, book.bids, book.asks, book.pool, book.pool.freeList} <= book.Repr()
    {
    }

    lemma ValidIntro()
      requires matcher.book == book && book.Core({}) && journal.Valid() && {this, risk, journal, journal.writeBuf} !! book.Repr()
      requires book.bestBid == book.bids.Begin() && book.bestAsk == book.asks.Begin()
      ensures Valid()
    {
    }

    lemma AbsIs()
      ensures Abs() == State(active, book.Abs(), risk.netPosition, risk.ordersRejected, journal.log, journalRecordCount,
                             orderCount)
    {
    }

    /** Copies the order into a slot of the pool, if there is one. */
    method Allocate(e: Entry, arrived: u64) returns (aggressive: Order?)
      requires book.Core({}) && book.bestBid == book.bids.Begin() && book.bestAsk == book.asks.Begin()
      modifies book.Repr()
      ensures aggressive == null <==> old(book.Abs()).Count() >= book.pool.capacity
      ensures book.Members() == old(book.Members())
      ensures book.bestBid == book.bids.Begin() && book.bestAsk == book.asks.Begin()
      ensures book.Repr() == old(book.Repr()) && book.Abs() == old(book.Abs()) && book.orderMap == old(book.orderMap)
      ensures aggressive != null ==> aggressive.Value() == e && aggressive.id == e.id
      ensures aggressive != null ==> aggressive.timestamp == arrived && aggressive !in book.Members()
      ensures aggressive == null ==> book.Core({})
      ensures aggressive != null ==> var o: Order := aggressive; book.Core({o})
    {
      hide OrderBook.Core;
      hide OrderBook.Members;
      hide LevelMap.Flat;
      hide LevelMap.Begin;
      book.ReprHolds({});
      aggressive := book.Acquire(e, arrived);
    }

    /** Journals the order, matches it, books its fills and counts it. */
    method Settle(aggressive: Order, input: Input)
      requires matcher.book == book && book.Core({aggressive})
      requires book.bestBid == book.bids.Begin() && book.bestAsk == book.asks.Begin()
      requires journal.Valid() && {this, risk, journal, journal.writeBuf} !! book.Repr()
      requires aggressive.Value() == input.order && aggressive.id == input.order.id
      modifies risk`netPosition, journal, journal.writeBuf, book.Repr(), `journalRecordCount, `orderCount
      ensures journal.Valid() && {this, risk, journal, journal.writeBuf} !! book.Repr()
      ensures book.Valid() <==> StaysDistinct(old(book.Abs()), input.order)
      ensures book.Standing()
      ensures Matched(old(book.Abs()), input.order).left > 0 ==>
              book.Leads(input.order.id, aggressive, Remainder(old(book.Abs()), input.order), old(aggressive.timestamp))
      ensures forall x {:trigger x in book.Repr()} :: x in book.Repr() && x !in old(book.Repr()) ==> fresh(x)
      ensures book.Abs() == Submit(old(book.Abs()), input.order).book
      ensures risk.netPosition ==
              PositionAfter(old(risk.netPosition), input.order.side, Submit(old(book.Abs()), input.order).trades)
      ensures journalRecordCount == Wrap(old(journalRecordCount) as int + 1)
      ensures orderCount == Wrap(old(orderCount) as int + 1)
      ensures journal.log == Due(journalRecordCount,
                                 LogTrades(LogOrder(old(journal.log), input.order, input.times),
                                           Stamp(Submit(old(book.Abs()), input.order).trades, input.stamps), input.times))
    {
      hide *;
      book.ReprHolds({aggressive});
      JournalOrder(input.order, input.times);
      var trades := matcher.Match(aggressive, input.stamps);
      BookParts();
      Post(input.order.side, trades, Submit(old(book.Abs()), input.order).trades, input.stamps, input.times);
    }

    /** The body of the loop, on one inbound order. The engine is left consistent if and only if the order, if accepted,
        brings no id into the book a second time. */
    method Step(input: Input)
      requires Valid()
      modifies this, risk, journal, journal.writeBuf, book.Repr()
      ensures Abs() == EngineSpec.Step(old(Abs()), input, Settings())
      ensures Valid() <==>
              (Accepts(old(Abs()), input.order, Settings()) ==> StaysDistinct(old(Abs()).book, input.order))
      ensures book.Standing()
      ensures Accepts(old(Abs()), input.order, Settings()) && Matched(old(Abs()).book, input.order).left > 0 ==>
              book.Entered(input.order.id, Remainder(old(Abs()).book, input.order), input.arrived, old(book.Members()))
      ensures forall x {:trigger x in book.Repr()} :: x in book.Repr() && x !in old(book.Repr()) ==> fresh(x)
    {
      hide *;
      ValidParts();
      AbsIs();
      ghost var was := Abs();
      var e := input.order;
      AcceptsIs(was, e, Settings());
      book.ValidStanding();
      if !active {
        StepRefuses(was, input, Settings());
        return;
      }
      var pass := risk.Check(e.side, e.price, e.qty);
      if !pass {
        ValidFromBook();
        AbsIs();
        book.ValidStanding();
        StepRefuses(was, input, Settings());
        return;
      }
      var aggressive := Allocate(e, input.arrived);
      if aggressive == null {
        ValidIntro();
        AbsIs();
        ValidParts();
        book.ValidStanding();
        StepRefuses(was, input, Settings());
        return;
      }
      Settle(aggressive, input);
      ValidFromBook();
      AbsIs();
      if Matched(was.book, e).left > 0 {
        book.LeadsEntered(e.id, aggressive, Remainder(was.book, e), input.arrived, old(book.Members()));
      }
      StepAccepts(was, Abs(), input, Settings(), Submit(was.book, e));
    }

    /** The body of the loop on an order it accepts, cut off when `reports` of its trades have been journaled. */
    method Interrupted(input: Input, reports: nat)
      requires Valid() && Accepts(Abs(), input.order, Settings())
      requires reports <= |Submit(Abs().book, input.order).trades|
      modifies this, risk, journal, journal.writeBuf, book.Repr()
      ensures journal.Valid() && journal.log == Midway(old(Abs()), input, reports)
      ensures book.Abs() == Submit(old(Abs()).book, input.order).book
    {
      hide *;
      ValidParts();
      AbsIs();
      ghost var was := Abs();
      var e := input.order;
      AcceptsIs(was, e, Settings());
      var pass := risk.Check(e.side, e.price, e.qty);
      var aggressive := Allocate(e, input.arrived);
      book.ReprHolds({aggressive});
      JournalOrder(e, input.times);
      var trades := matcher.Match(aggressive, input.stamps);
      ghost var done := Submit(was.book, e).trades;
      BookParts();
      CutTrades(was, input, reports);
      Fill(e.side, trades[..reports], done[..reports], input.stamps, input.times);
    }

    /** The loop, on the orders the inbound ring delivers: all but the last are known to bring no id in twice. The engine is
        consistent at the end if and only if the last does not either. */
    method Run(inputs: seq<Input>)
      requires Valid() && Abs() == START
      requires inputs != [] ==> DistinctIds(inputs[..|inputs| - 1], Settings())
      modifies this, risk, journal, journal.writeBuf, book.Repr()
      ensures Abs() == EngineSpec.Run(inputs, Settings())
      ensures Valid() <==> DistinctIds(inputs, Settings())
      ensures forall x {:trigger x in book.Repr()} :: x in book.Repr() && x !in old(book.Repr()) ==> fresh(x)
    {
      hide *;
      RunsFromStart(Settings());
      if inputs == [] {
        return;
      }
      ghost var before := inputs[..|inputs| - 1];
      assert inputs[..0] == [];
      for i := 0 to |inputs| - 1
        invariant Valid() && Abs() == EngineSpec.Run(inputs[..i], Settings())
        invariant forall x {:trigger x in book.Repr()} :: x in book.Repr() && x !in old(book.Repr()) ==> fresh(x)
      {
        assert before[i] == inputs[i] && before[..i] == inputs[..i];
        DistinctAt(before, i, Settings());
        RunStep(inputs[..i + 1], Settings());
        assert inputs[..i + 1][..i] == inputs[..i];
        Step(inputs[i]);
      }
      RunStep(inputs, Settings());
      DistinctLast(inputs, Settings());
      Step(inputs[|inputs| - 1]);
    }

    /** Flushes the journal. */
    method Close()
      requires Valid()
      modifies journal, journal.writeBuf
      ensures Valid() && Abs() == old(Abs()).(log := JournalSpec.Checkpoint(old(Abs().log)))
    {
      hide *;
      ValidParts();
      AbsIs();
      book.ValidStanding();
      BookParts();
      journal.Close();
      ValidFromBook();
      AbsIs();
    }
  }

  lemma StepRefuses(s: State, input: Input, c: Config)
    requires var e := input.order;
             s.active && Passes(c.limits, s.position, e.side, e.price, e.qty) ==> s.book.Count() >= c.capacity
    ensures var e := input.order;
            EngineSpec.Step(s, input, c) ==
            if s.active && !Passes(c.limits, s.position, e.side, e.price, e.qty) then
              s.(rejected := Wrap(s.rejected as int + 1))
            else s
  {
    hide Submit, Passes, LogTrades, PositionAfter, Due;
  }

  lemma StepAccepts(s: State, s': State, input: Input, c: Config, out: Outcome)
    requires s.active && s.book.Count() < c.capacity && out == Submit(s.book, input.order)
    requires Passes(c.limits, s.position, input.order.side, input.order.price, input.order.qty)
    requires s'.active && s'.book == out.book && s'.rejected == s.rejected
    requires s'.position == PositionAfter(s.position, input.order.side, out.trades)
    requires s'.records == Wrap(s.records as int + 1) && s'.orders == Wrap(s.orders as int + 1)
    requires s'.log == Due(s'.records, LogTrades(LogOrder(s.log, input.order, input.times),
                                                 Stamp(out.trades, input.stamps), input.times))
    ensures s' == EngineSpec.Step(s, input, c)
  {
    hide Submit, Passes, LogTrades, PositionAfter, Due;
  }

  lemma AcceptsIs(s: State, e: Entry, c: Config)
    ensures Accepts(s, e, c) <==>
            s.active && Passes(c.limits, s.position, e.side, e.price, e.qty) && s.book.Count() < c.capacity
  {
    hide Passes;
  }

  lemma RunsFromStart(c: Config)
    ensures EngineSpec.Run([], c) == START && DistinctIds([], c)
  {
  }

  lemma DistinctLast(inputs: seq<Input>, c: Config)
    requires inputs != []
    ensures var s, e := EngineSpec.Run(inputs[..|inputs| - 1], c), inputs[|inputs| - 1].order;
            DistinctIds(inputs, c) <==>
            DistinctIds(inputs[..|inputs| - 1], c) && (Accepts(s, e, c) ==> StaysDistinct(s.book, e))
  {
    hide EngineSpec.Run, Accepts, StaysDistinct;
  }

  lemma CutTrades(s: State, input: Input, reports: nat)
    requires reports <= |Submit(s.book, input.order).trades|
    ensures var done := Submit(s.book, input.order).trades;
            && Stamp(done, input.stamps)[..reports] == Stamp(done[..reports], input.stamps)
            && Midway(s, input, reports) ==
               LogTrades(LogOrder(s.log, input.order, input.times), Stamp(done, input.stamps)[..reports], input.times)
  {
    hide Submit, LogOrder, LogTrades;
  }

  lemma StartIs()
    ensures START == State(true, EMPTY, 0, 0, JournalSpec.FRESH, 0, 0)
  {
  }

  lemma DueIs(records: u64, log: JournalSpec.Log)
    requires JournalSpec.LogOk(log)
    ensures records % 1000 == 0 ==>
              && Due(records, log) == JournalSpec.Checkpoint(log)
              && JournalSpec.Flushed(Due(records, log)) == JournalSpec.Written(Due(records, log)) == JournalSpec.Written(log)
    ensures records % 1000 != 0 ==> Due(records, log) == log
  {
    JournalSpec.CheckpointFlushes(log);
    hide JournalSpec.Checkpoint, JournalSpec.Flushed, JournalSpec.Written;
  }

  lemma LogOrderIs(log: JournalSpec.Log, e: Entry, times: Clock)
    ensures LogOrder(log, e, times) == JournalSpec.Write(log, times(0), Codec.EncodeNewOrder(Codec.Sent(e)))
  {
  }

  lemma FillStart(position: i64, side: Side, done: seq<Trade>, log: JournalSpec.Log, trades: seq<TradeEvent>, times: Clock)
    ensures PositionAfter(position, side, done[..0]) == position && LogTrades(log, trades[..0], times) == log
  {
  }

  lemma FillStep(position: i64, side: Side, done: seq<Trade>, log: JournalSpec.Log, trades: seq<TradeEvent>, times: Clock,
                 i: nat)
    requires |done| == |trades| && i < |trades| && trades[i].trade == done[i]
    ensures PositionAfter(position, side, done[..i + 1]) ==
            Moved(PositionAfter(position, side, done[..i]), side, trades[i].trade.qty)
    ensures LogTrades(log, trades[..i + 1], times) ==
            JournalSpec.Write(LogTrades(log, trades[..i], times), times(i + 1), Codec.EncodeTradeReport(trades[i]))
  {
    assert done[..i + 1][..i] == done[..i] && trades[..i + 1][..i] == trades[..i];
  }
}
