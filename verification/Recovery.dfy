/** Rebuilding an order book from a journal file on the heap, and the whole circle: run, close, recover. */
module Recovering {
  import opened Types
  import opened Bytes
  import opened Sequences
  import opened ByteType
  import opened BookSpec
  import opened OrderBooks
  import opened LevelMaps
  import opened Matching
  import opened Journals
  import opened EngineSpec
  import opened Engines
  import opened Rebuilding
  import Codec
  import JournalSpec
  import Risk

  /** A record the replay can take: if it is an order, a slot is left and the message is framed. */
  ghost predicate Playable(b: Book, payload: seq<byte>, capacity: nat) {
    ReplayOne(b, payload, capacity).Some?
  }

  /** A record that leaves the book consistent: if it is an order, it decodes, so that its slot is not leaked, and it brings no
      id in twice. */
  ghost predicate Sound(b: Book, payload: seq<byte>) {
    payload != [] && payload[0] == Codec.NEW_ORDER && Codec.Framed(payload) ==>
      Codec.Decode(payload).Some? && StaysDistinct(b, Codec.Received(Codec.Decode(payload).value))
  }

  ghost predicate Admissible(b: Book, payload: seq<byte>, capacity: nat) {
    Playable(b, payload, capacity) && Sound(b, payload)
  }

  ghost predicate Replayable(ps: seq<seq<byte>>, capacity: nat) {
    ps != [] ==>
      var front := ps[..|ps| - 1];
      && Replayable(front, capacity) && Rebuild(front, capacity).Some?
      && Admissible(Rebuild(front, capacity).value, ps[|ps| - 1], capacity)
  }

  lemma {:induction false} ReplayableAt(ps: seq<seq<byte>>, i: nat, capacity: nat)
    requires Replayable(ps, capacity) && i < |ps|
    ensures Replayable(ps[..i], capacity) && Rebuild(ps[..i], capacity).Some?
    ensures Admissible(Rebuild(ps[..i], capacity).value, ps[i], capacity)
    ensures Rebuild(ps[..i + 1], capacity) == ReplayOne(Rebuild(ps[..i], capacity).value, ps[i], capacity)
    decreases |ps|
  {
    hide Admissible, ReplayOne;
    var front := ps[..|ps| - 1];
    if i < |front| {
      ReplayableAt(front, i, capacity);
      assert front[..i] == ps[..i] && front[..i + 1] == ps[..i + 1];
    } else {
      assert ps[..i + 1] == ps;
    }
  }

  lemma RebuildNothing(capacity: nat)
    ensures Rebuild([], capacity) == Some(EMPTY)
  {
  }

  lemma OrderParts(b: Book, payload: seq<byte>, capacity: nat)
    requires Playable(b, payload, capacity) && payload != [] && payload[0] == Codec.NEW_ORDER
    ensures b.Count() < capacity && Codec.Framed(payload)
    ensures Codec.Decode(payload).None? ==> ReplayOne(b, payload, capacity) == Some(b) && !Sound(b, payload)
    ensures Codec.Decode(payload).Some? ==>
              var e := Codec.Received(Codec.Decode(payload).value);
              ReplayOne(b, payload, capacity) == Some(Submit(b, e).book) && (Sound(b, payload) <==> StaysDistinct(b, e))
  {
  }

  lemma ReplaySkips(b: Book, payload: seq<byte>, capacity: nat)
    requires payload == [] || payload[0] != Codec.NEW_ORDER
    ensures ReplayOne(b, payload, capacity) == Some(b) && Sound(b, payload)
  {
  }

  /** One record, as the replay callback takes it: an order is decoded into a slot of the pool and matched. One that does not
      decode is skipped, but its slot stays taken. The book is left consistent if and only if that does not happen and no id
      comes in twice. */
  method ReplayRecord(book: OrderBook, matcher: MatchingEngine, payload: seq<byte>, clock: Clock)
    requires matcher.book == book && book.Valid() && Playable(book.Abs(), payload, book.pool.capacity)
    modifies book.Repr()
    ensures Some(book.Abs()) == ReplayOne(old(book.Abs()), payload, book.pool.capacity)
    ensures book.Valid() <==> Sound(old(book.Abs()), payload)
    ensures forall x {:trigger x in book.Repr()} :: x in book.Repr() && x !in old(book.Repr()) ==> fresh(x)
  {
    hide OrderBook.Core, LevelMap.Flat, LevelMap.Begin;
    hide Playable, Sound, ReplayOne, Codec.Decode, Codec.Received, Codec.Framed, Submit, StaysDistinct, OrderBook.Filed;
    if payload == [] || payload[0] != Codec.NEW_ORDER {
      ReplaySkips(book.Abs(), payload, book.pool.capacity);
      return;
    }
    OrderParts(book.Abs(), payload, book.pool.capacity);
    book.ReprHolds({});
    var order := book.Acquire(Entry(0, 0, 0, 0, Buy, Limit, New), 0);
    book.ReprHolds({order});
    var decoded := Codec.DecodeInto(payload, order);
    if decoded {
      var _ := matcher.Match(order, clock);
    } else {
      book.LeakBreaks(order);
    }
  }

  /** All records but the last keep the book consistent, and the replay can take the last. */
  ghost predicate Takes(ps: seq<seq<byte>>, capacity: nat) {
    ps != [] ==>
      var front := ps[..|ps| - 1];
      && Replayable(front, capacity) && Rebuild(front, capacity).Some?
      && Playable(Rebuild(front, capacity).value, ps[|ps| - 1], capacity)
  }

  lemma TakesParts(ps: seq<seq<byte>>, capacity: nat)
    requires Takes(ps, capacity) && ps != []
    ensures var front, last := ps[..|ps| - 1], ps[|ps| - 1];
            && Replayable(front, capacity) && Rebuild(front, capacity).Some?
            && Playable(Rebuild(front, capacity).value, last, capacity)
            && Rebuild(ps, capacity) == ReplayOne(Rebuild(front, capacity).value, last, capacity)
            && (Replayable(ps, capacity) <==> Sound(Rebuild(front, capacity).value, last))
  {
    hide Playable, Sound, ReplayOne;
  }

  lemma ReplayableTakes(ps: seq<seq<byte>>, capacity: nat)
    requires Replayable(ps, capacity)
    ensures Takes(ps, capacity)
  {
    hide Playable, Sound, ReplayOne;
  }

  /** Replays every record of a journal file into an empty book. The book is consistent at the end if and only if the last
      record leaves it so. */
  method Recover(file: seq<byte>, capacity: nat, clock: Clock) returns (book: OrderBook)
    requires Takes(Payloads(JournalSpec.Replay(file)), capacity)
    ensures fresh(book.Repr()) && book.pool.capacity == capacity
    ensures Rebuild(Payloads(JournalSpec.Replay(file)), capacity) == Some(book.Abs())
    ensures book.Valid() <==> Replayable(Payloads(JournalSpec.Replay(file)), capacity)
  {
    hide *;
    book := new OrderBook(capacity);
    var matcher := new MatchingEngine(book);
    var records := Journal.Replay(file);
    ghost var ps := Payloads(records);
    RebuildNothing(capacity);
    ReplayableNothing(capacity);
    if records == [] {
      assert ps == [];
      return;
    }
    var n := |records| - 1;
    ghost var front := ps[..n];
    TakesParts(ps, capacity);
    assert ps[..0] == [];
    for i := 0 to n
      invariant book.Valid() && fresh(book.Repr())
      invariant Rebuild(ps[..i], capacity) == Some(book.Abs())
    {
      assert front[..i] == ps[..i] && front[..i + 1] == ps[..i + 1] && front[i] == ps[i];
      ReplayableAt(front, i, capacity);
      AdmissibleParts(Rebuild(ps[..i], capacity).value, ps[i], capacity);
      ReplayRecord(book, matcher, records[i].payload, clock);
    }
    ReplayRecord(book, matcher, records[n].payload, clock);
  }

  lemma AdmissibleParts(b: Book, payload: seq<byte>, capacity: nat)
    requires Admissible(b, payload, capacity)
    ensures Playable(b, payload, capacity) && Sound(b, payload)
  {
  }

  // ----- Journals of engine runs can be replayed -----

  lemma DistinctIgnoresState(b: Book, e: Entry, state: OrderState)
    ensures StaysDistinct(b, e.(state := state)) <==> StaysDistinct(b, e)
  {
  }

  lemma OrderAdmissible(b: Book, e: Entry, capacity: nat)
    requires b.Count() < capacity && Whole(e) && StaysDistinct(b, e)
    ensures Admissible(b, Codec.EncodeNewOrder(Codec.Sent(e)), capacity)
  {
    DistinctIgnoresState(b, e, New);
    hide ReplayOne, Codec.EncodeNewOrder, Codec.Decode, StaysDistinct;
    ReplayOrder(b, e, capacity);
    Codec.OrderRoundTrip(e);
  }

  lemma {:induction false} ReportsReplayable(ps: seq<seq<byte>>, events: seq<TradeEvent>, capacity: nat)
    requires Replayable(ps, capacity) && Rebuild(ps, capacity).Some?
    ensures Replayable(ps + Reports(events), capacity)
    decreases |events|
  {
    hide Codec.EncodeTradeReport, Codec.Decode, ReplayOne, Rebuild;
    if events == [] {
      Nothing(ps);
    } else {
      var front, last := events[..|events| - 1], events[|events| - 1];
      var all := ps + Reports(events);
      assert all[..|all| - 1] == ps + Reports(front);
      ReportsReplayable(ps, front, capacity);
      RebuildSkips(ps, front, capacity);
      Codec.TradeReportIsNoOrder(last);
      assert all[|all| - 1] == Codec.EncodeTradeReport(last);
      ReplaySkips(Rebuild(ps, capacity).value, Codec.EncodeTradeReport(last), capacity);
    }
  }

  /** The records of one accepted order, or the first few of them. */
  lemma StepReplayable(ps: seq<seq<byte>>, s: State, input: Input, c: Config, n: nat)
    requires Replayable(ps, c.capacity) && Rebuild(ps, c.capacity) == Some(s.book)
    requires Accepts(s, input.order, c) && Whole(input.order) && StaysDistinct(s.book, input.order)
    requires 0 < n <= |StepPayloads(s, input, c)|
    ensures Replayable(ps + StepPayloads(s, input, c)[..n], c.capacity)
  {
    var order := Codec.EncodeNewOrder(Codec.Sent(input.order));
    var events := Stamp(Submit(s.book, input.order).trades, input.stamps);
    hide Submit, StaysDistinct, Risk.Passes, Codec.EncodeNewOrder, Codec.EncodeTradeReport, Admissible, ReplayOne;
    OrderAdmissible(s.book, input.order, c.capacity);
    ReplayOrder(s.book, input.order, c.capacity);
    var one := ps + [order];
    assert one[..|one| - 1] == ps;
    ReportsReplayable(one, events[..n - 1], c.capacity);
    assert StepPayloads(s, input, c)[..n] == [order] + Reports(events[..n - 1]);
    Associative(ps, [order], Reports(events[..n - 1]));
  }

  /** Whatever part of a run's journal reached the file, it can be replayed. */
  lemma {:induction false} RunReplayable(inputs: seq<Input>, c: Config, n: nat)
    requires Unfilled(inputs, c) && DistinctIds(inputs, c)
    requires n <= |JournalOf(inputs, c)|
    ensures Replayable(JournalOf(inputs, c)[..n], c.capacity)
    decreases |inputs|
  {
    hide *;
    if inputs == [] {
      RunNothing(c);
      ReplayableNothing(c.capacity);
    } else {
      var before, last := inputs[..|inputs| - 1], inputs[|inputs| - 1];
      var s := Run(before, c);
      UnfilledParts(inputs, c);
      DistinctAt(inputs, |inputs| - 1, c);
      JournalRebuildsBook(before, c);
      JournalStep(inputs, c);
      StepAccepted(s, last, c);
      var ps, step := JournalOf(before, c), StepPayloads(s, last, c);
      RunReplayable(before, c, if n <= |ps| then n else |ps|);
      if n <= |ps| {
        assert (ps + step)[..n] == ps[..n];
      } else {
        assert (ps + step)[..n] == ps + step[..n - |ps|] && ps[..|ps|] == ps;
        StepReplayable(ps, s, last, c, n - |ps|);
      }
    }
  }

  lemma ReplayableNothing(capacity: nat)
    ensures Replayable([], capacity)
  {
  }

  /** Whenever a run ends, the file, zero-filled behind the written part, can be replayed. */
  lemma FileReplayable(inputs: seq<Input>, ending: Ending, c: Config, z: nat)
    requires Unfilled(inputs, c) && DistinctIds(inputs, c) && Reaches(inputs, ending, c)
    ensures var log := LogAt(inputs, ending, c);
            && JournalSpec.LogOk(log)
            && Replayable(Payloads(JournalSpec.Replay(JournalSpec.EncodeBlocks(log.blocks) + Zeros(z))), c.capacity)
  {
    hide *;
    var log := LogAt(inputs, ending, c);
    var n := |JournalSpec.Flushed(log)|;
    LogAtHolds(inputs, ending, c);
    JournalReadable(inputs, c);
    ReadsFlushed(log, z);
    FlushedFirst(log);
    assert JournalOf(inputs, c)[..|JournalSpec.Written(log)|][..n] == JournalOf(inputs, c)[..n];
    RunReplayable(inputs, c, n);
  }

  /** The circle: an engine runs on any orders that come in whole and bring no id in twice, and a second book is recovered
      from its file. After an orderly close the two books are the same. After a crash, between two orders or in the middle of
      one, the recovered book is the one the engine had after the first `k` orders, the least number whose records cover what
      was flushed: every order up to the last accepted one whose number is a multiple of a thousand survives, and at most
      eighty accepted ones are lost. */
  method RunAndRecover(limits: Risk.Limits, capacity: nat, inputs: seq<Input>, ending: Ending, z: nat, clock: Clock)
      returns (live: Engine, recovered: OrderBook, ghost k: nat)
    requires Unfilled(inputs, Config(limits, capacity)) && DistinctIds(inputs, Config(limits, capacity))
    requires Reaches(inputs, ending, Config(limits, capacity))
    ensures live.book.Abs() == Run(inputs, Config(limits, capacity)).book
    ensures recovered.Valid() && Survives(inputs, ending, k, Config(limits, capacity)) && k <= |inputs|
    ensures recovered.Abs() == Run(inputs[..k], Config(limits, capacity)).book
    ensures ending.Closed? ==> live.Valid() && recovered.Abs() == live.book.Abs()
    ensures forall j :: 0 < j <= |Finished(inputs, ending)| ==>
              Accepts(Run(inputs[..j - 1], Config(limits, capacity)), inputs[j - 1].order, Config(limits, capacity)) ==>
              Run(inputs[..j], Config(limits, capacity)).records % 1000 == 0 ==> j <= k
    ensures Accepted(inputs, Config(limits, capacity)) - Accepted(inputs[..k], Config(limits, capacity)) <= 80
    ensures Accepted(inputs, Config(limits, capacity)) - Accepted(inputs[..k], Config(limits, capacity)) <=
            Run(Finished(inputs, ending), Config(limits, capacity)).records % 1000 + if ending.CutOff? then 1 else 0
  {
    hide *;
    ghost var c := Config(limits, capacity);
    live := new Engine(limits, capacity);
    live.ValidParts();
    live.AbsIs();
    EndingIs(inputs, ending, c);
    match ending {
      case Closed =>
        DistinctBefore(inputs, c);
        live.Run(inputs);
        live.AbsIs();
        live.ValidParts();
        live.Close();
        live.AbsIs();
        live.ValidParts();
      case Crashed =>
        DistinctBefore(inputs, c);
        live.Run(inputs);
        live.AbsIs();
        live.ValidParts();
      case CutOff(reports) =>
        DistinctBefore(inputs, c);
        DistinctBefore(inputs[..|inputs| - 1], c);
        live.Run(inputs[..|inputs| - 1]);
        live.AbsIs();
        live.ValidParts();
        live.Interrupted(inputs[|inputs| - 1], reports);
    }
    live.journal.FileIs();
    FileReplayable(inputs, ending, c, z);
    k := Recovery(inputs, ending, c, z);
    SurvivesParts(inputs, ending, k, c);
    CrashLoses(inputs, ending, k, c);
    ReplayableTakes(Payloads(JournalSpec.Replay(live.journal.file + Zeros(z))), capacity);
    recovered := Recover(live.journal.file + Zeros(z), capacity, clock);
  }

  lemma DistinctBefore(inputs: seq<Input>, c: Config)
    requires DistinctIds(inputs, c)
    ensures inputs != [] ==> DistinctIds(inputs[..|inputs| - 1], c)
  {
  }

  /** What the engine has to have journaled, and its book, for each ending. */
  lemma EndingIs(inputs: seq<Input>, ending: Ending, c: Config)
    requires Reaches(inputs, ending, c)
    ensures ending.Closed? ==> LogAt(inputs, ending, c) == JournalSpec.Checkpoint(Run(inputs, c).log)
    ensures ending.Crashed? ==> LogAt(inputs, ending, c) == Run(inputs, c).log
    ensures ending.CutOff? ==>
              && inputs != []
              && var s, last := Run(inputs[..|inputs| - 1], c), inputs[|inputs| - 1];
              && Accepts(s, last.order, c) && ending.reports <= |Submit(s.book, last.order).trades|
              && LogAt(inputs, ending, c) == Midway(s, last, ending.reports)
              && Run(inputs, c).book == Submit(s.book, last.order).book
  {
    if ending.CutOff? {
      StepAccepted(Run(inputs[..|inputs| - 1], c), inputs[|inputs| - 1], c);
      hide Accepts, Midway, Submit, EngineSpec.Step;
      RunStep(inputs, c);
    }
  }
}
