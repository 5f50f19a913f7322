/** The matching loop on the heap, proved to compute the greedy price-time match of the abstract book. */
module Matching {
  import opened Types
  import opened BookSpec
  import opened ObjectPool
  import opened PriceLevels
  import opened LevelMaps
  import opened OrderBooks

  class MatchingEngine {
    const book: OrderBook

    constructor (book: OrderBook)
      ensures this.book == book
    {
      this.book := book;
    }

    /** Takes `fill` off the front order of the best level, and drops the order (and its level) when it is filled. */
    method FillFront(level: PriceLevel, passive: Order, fill: u64, m: LevelMap, ghost other: LevelMap, ghost extra: set<Order>)
      requires book.Core(extra) && book.Pair(m, other) && m.levels != map[] && level == m.Begin() && passive == level.head
      requires m.Flat() != [] && fill <= m.Flat()[0].remaining
      modifies book`orderMap, book.pool, book.pool.freeList, m, m.nodes, m.members
      ensures book.Core(extra)
      ensures m.Flat() == AfterFill(old(m.Flat()), fill) && (fill == old(m.Flat())[0].remaining ==> m.members < old(m.members))
      ensures other.Flat() == old(other.Flat()) && other.Begin() == old(other.Begin())
      ensures book.pool.slots == old(book.pool.slots) && m.nodes == old(m.nodes) && m.members <= old(m.members)
      ensures forall k :: k in book.orderMap ==> k in old(book.orderMap)
    {
      hide OrderBook.Core;
      hide OrderBook.Closing;
      hide OrderBook.Pair;
      hide LevelMap.Valid;
      hide LevelMap.Flat;
      hide LevelMap.Begin;
      ghost var _, _ := book.Front(m, other, extra);
      book.FillPassive(level, passive, fill, m, other, extra);
      if passive.remaining == 0 {
        book.PopFront(level, passive, m, other, extra);
      } else {
        book.CoreFromClosing(passive, extra);
      }
    }

    /** One round of the matching loop: trade with the front order of the best opposite level, and drop that
        order (and its level) when it is filled. */
    method FillBest(aggressive: Order, m: LevelMap, ghost other: LevelMap) returns (t: Trade, ghost was: seq<Entry>)
      requires book.Core({aggressive}) && book.Pair(m, other) && m.levels != map[] && aggressive.remaining > 0
      modifies aggressive`remaining, aggressive`state, book`orderMap, book.pool, book.pool.freeList, m, m.nodes, m.members
      ensures book.Core({aggressive})
      ensures was == old(m.Flat()) && was != [] && t.qty == Min(old(aggressive.remaining), was[0].remaining)
      ensures t == Trade(aggressive.id, was[0].id, was[0].price, t.qty)
      ensures aggressive.remaining == old(aggressive.remaining) - t.qty && aggressive.state == old(aggressive.state)
      ensures m.Flat() == AfterFill(was, t.qty) && (t.qty == was[0].remaining ==> m.members < old(m.members))
      ensures other.Flat() == old(other.Flat()) && other.Begin() == old(other.Begin())
      ensures book.pool.slots == old(book.pool.slots) && m.nodes == old(m.nodes) && m.members <= old(m.members)
      ensures forall k :: k in book.orderMap ==> k in old(book.orderMap)
    {
      hide OrderBook.Core;
      hide OrderBook.Closing;
      hide OrderBook.Pair;
      hide LevelMap.Valid;
      hide LevelMap.Flat;
      hide LevelMap.Begin;
      was := m.Flat();
      ghost var _, _ := book.Front(m, other, {aggressive});
      var level := m.Begin();
      var passive := level.head;
      var fill := if aggressive.remaining <= passive.remaining then aggressive.remaining else passive.remaining;
      t := Trade(aggressive.id, passive.id, level.price, fill);
      book.PairFlats(m, other);
      book.Update(aggressive, aggressive.remaining - fill, aggressive.state);
      book.Outside(aggressive, m, other);
      FillFront(level, passive, fill, m, other, {aggressive});
    }

    /** The matching loop: sweeps the opposite side `m` from the front while it crosses. */
    method Sweep(aggressive: Order, m: LevelMap, ghost other: LevelMap, clock: Clock)
        returns (trades: seq<TradeEvent>, ghost done: seq<Trade>)
      requires book.Core({aggressive}) && book.Pair(m, other) && m.side == Opposite(aggressive.side)
      modifies aggressive`remaining, aggressive`state, book`orderMap, book.pool, book.pool.freeList, m, m.nodes, m.members
      ensures book.Core({aggressive}) && trades == Stamp(done, clock)
      ensures Greedy(aggressive.id, aggressive.price, old(aggressive.remaining), m.side, old(m.Flat()))
           == BookSpec.Sweep(done, m.Flat(), aggressive.remaining)
      ensures other.Flat() == old(other.Flat()) && other.Begin() == old(other.Begin())
      ensures aggressive.state == old(aggressive.state)
      ensures book.pool.slots == old(book.pool.slots) && m.nodes == old(m.nodes) && m.members <= old(m.members)
      ensures forall k :: k in book.orderMap ==> k in old(book.orderMap)
    {
      hide OrderBook.Core;
      hide OrderBook.Pair;
      hide LevelMap.Valid;
      hide LevelMap.Flat;
      hide LevelMap.Begin;
      hide Greedy;
      hide Resume;
      ghost var target := Greedy(aggressive.id, aggressive.price, aggressive.remaining, m.side, m.Flat());
      trades, done := [], [];
      book.Outside(aggressive, m, other);
      ResumeNothing(target);
      while aggressive.remaining > 0
        invariant book.Core({aggressive}) && trades == Stamp(done, clock)
        invariant target == Resume(done, Greedy(aggressive.id, aggressive.price, aggressive.remaining, m.side, m.Flat()))
        invariant other.Flat() == old(other.Flat()) && other.Begin() == old(other.Begin())
        invariant aggressive.state == old(aggressive.state)
        invariant book.pool.slots == old(book.pool.slots) && m.nodes == old(m.nodes) && m.members <= old(m.members)
        invariant forall k :: k in book.orderMap ==> k in old(book.orderMap)
        decreases m.members, aggressive.remaining
      {
        book.Head(m, other, {aggressive});
        if m.levels == map[] {
          break;
        }
        if Better(m.side, aggressive.price, m.Begin().price) {
          break;
        }
        GreedyStep(done, aggressive.id, aggressive.price, aggressive.remaining, m.side, m.Flat());
        var t, was := FillBest(aggressive, m, other);
        trades := trades + [TradeEvent(t, clock(|trades|))];
        done := done + [t];
      }
      if aggressive.remaining > 0 {
        book.Head(m, other, {aggressive});
      }
      GreedyStop(done, aggressive.id, aggressive.price, aggressive.remaining, m.side, m.Flat());
    }

    method Rest(aggressive: Order)
      requires book.Core({aggressive}) && aggressive.state.PartFill?
      requires book.Best(aggressive.side) == book.On(aggressive.side).Begin()
      modifies book.Repr()
      ensures book.Standing() && (book.Valid() <==> old(aggressive.id) !in old(book.orderMap))
      ensures book.orderMap == old(book.orderMap)[old(aggressive.id) := aggressive]
      ensures book.Leads(old(aggressive.id), aggressive, old(aggressive.Value()), old(aggressive.timestamp))
      ensures book.Abs() == Place(old(book.Abs()), old(aggressive.Value()))
      ensures forall x {:trigger x in book.Repr()} :: x in book.Repr() && x !in old(book.Repr()) ==> fresh(x)
    {
      hide OrderBook.Core;
      hide OrderBook.Filed;
      hide OrderBook.Lost;
      hide OrderBook.Members;
      hide LevelMap.Flat;
      hide LevelMap.Begin;
      hide Place;
      book.ReprHolds({aggressive});
      book.AddResting(aggressive);
      book.Refresh();
    }

    method Free(aggressive: Order)
      requires book.Core({aggressive})
      modifies book.Repr()
      ensures book.Standing() && book.Valid() && book.Abs() == old(book.Abs()) && book.Repr() == old(book.Repr())
      ensures book.orderMap == old(book.orderMap)
    {
      hide OrderBook.Core;
      hide OrderBook.Filed;
      hide OrderBook.Members;
      hide LevelMap.Flat;
      hide LevelMap.Begin;
      book.ReprHolds({aggressive});
      book.Discard(aggressive);
      book.Refresh();
      book.ValidStanding();
    }

    /** Rests what is left of the aggressor, or frees it. */
    method Finish(aggressive: Order)
      requires book.Core({aggressive})
      requires book.Best(aggressive.side) == book.On(aggressive.side).Begin()
      modifies book.Repr()
      ensures book.Standing()
      ensures book.orderMap == if old(aggressive.remaining) > 0 then old(book.orderMap)[old(aggressive.id) := aggressive]
                               else old(book.orderMap)
      ensures old(aggressive.remaining) > 0 ==>
              book.Leads(old(aggressive.id), aggressive, old(aggressive.Value()).(state := PartFill), old(aggressive.timestamp))
      ensures book.Valid() <==> old(aggressive.remaining) == 0 || old(aggressive.id) !in old(book.orderMap)
      ensures forall x {:trigger x in book.Repr()} :: x in book.Repr() && x !in old(book.Repr()) ==> fresh(x)
      ensures book.Abs() == if old(aggressive.remaining) > 0 then
                              Place(old(book.Abs()), old(aggressive.Value()).(state := PartFill))
                            else old(book.Abs())
    {
      hide OrderBook.Core;
      hide OrderBook.Filed;
      hide OrderBook.Leads;
      hide OrderBook.Standing;
      hide OrderBook.Valid;
      hide OrderBook.Members;
      hide LevelMap.Flat;
      hide LevelMap.Begin;
      hide Place;
      book.ReprHolds({aggressive});
      book.Update(aggressive, aggressive.remaining, StateAfter(aggressive.remaining));
      book.ReprHolds({aggressive});
      if aggressive.remaining > 0 {
        Rest(aggressive);
      } else {
        Free(aggressive);
      }
    }

    lemma SubmitIs(b: Book, e: Entry, r: BookSpec.Sweep, swept: Book)
      requires r == Greedy(e.id, e.price, e.remaining, Opposite(e.side), b.On(Opposite(e.side)))
      requires swept.On(e.side) == b.On(e.side) && swept.On(Opposite(e.side)) == r.rest
      ensures BookSpec.Submit(b, e).trades == r.trades
      ensures BookSpec.Submit(b, e).book == if r.left > 0 then Place(swept, e.(remaining := r.left, state := PartFill)) else swept
      ensures Matched(b, e) == r && Remainder(b, e) == e.(remaining := r.left, state := PartFill)
      ensures StaysDistinct(b, e) <==> r.left == 0 || !Resting(swept, e.id)
    {
      assert Swept(b, e) == swept;
    }

    /** `match`: the trades and the final book are those of the greedy price-then-FIFO match of the abstract book, whatever
        slots and links realise it. The aggressor is live in the pool. All structures agree on that book if and only if the
        match brings no id in twice. If it does, cached best levels and the resting ids in the index are right all the same, and
        the id leads to the order that just came in. */
    method Match(aggressive: Order, clock: Clock) returns (trades: seq<TradeEvent>)
      requires book.Core({aggressive})
      requires book.bestBid == book.bids.Begin() && book.bestAsk == book.asks.Begin()
      modifies book.Repr()
      ensures book.Standing()
      ensures Matched(old(book.Abs()), old(aggressive.Value())).left > 0 ==>
              book.Leads(old(aggressive.id), aggressive, Remainder(old(book.Abs()), old(aggressive.Value())),
                         old(aggressive.timestamp))
      ensures book.Valid() <==> StaysDistinct(old(book.Abs()), old(aggressive.Value()))
      ensures forall x {:trigger x in book.Repr()} :: x in book.Repr() && x !in old(book.Repr()) ==> fresh(x)
      ensures book.Abs() == BookSpec.Submit(old(book.Abs()), old(aggressive.Value())).book
      ensures trades == Stamp(BookSpec.Submit(old(book.Abs()), old(aggressive.Value())).trades, clock)
    {
      hide OrderBook.Core;
      hide OrderBook.Valid;
      hide OrderBook.Filed;
      hide OrderBook.Leads;
      hide OrderBook.Standing;
      hide OrderBook.Pair;
      hide OrderBook.Members;
      hide LevelMap.Flat;
      hide LevelMap.Begin;
      hide LevelMap.Valid;
      hide Place;
      hide Greedy;
      hide BookSpec.Submit;
      hide StaysDistinct;
      hide Resting;
      var hitsAsks := aggressive.side == Buy;
      var m := if hitsAsks then book.asks else book.bids;
      ghost var other := if hitsAsks then book.bids else book.asks;
      book.CoreSides({aggressive}, Opposite(aggressive.side));
      book.Outside(aggressive, m, other);
      book.ReprHolds({aggressive});
      ghost var b, e := book.Abs(), aggressive.Value();
      ghost var done;
      assert other == book.On(aggressive.side) && other.Begin() == book.Best(aggressive.side);
      trades, done := Sweep(aggressive, m, other, clock);
      SubmitIs(b, e, BookSpec.Sweep(done, m.Flat(), aggressive.remaining), book.Abs());
      book.IdsOf(aggressive.id, {aggressive});
      assert StaysDistinct(b, e) <==> aggressive.remaining == 0 || aggressive.id !in book.orderMap;
      Finish(aggressive);
    }

    /** Allocates a slot for the order and matches it; with the pool full the order is dropped, even if it could trade. */
    method Submit(e: Entry, now: u64, clock: Clock) returns (accepted: bool, trades: seq<TradeEvent>)
      requires book.Valid()
      modifies book.Repr()
      ensures book.Standing()
      ensures accepted && Matched(old(book.Abs()), e).left > 0 ==>
              book.Entered(e.id, Remainder(old(book.Abs()), e), now, old(book.Members()))
      ensures book.Valid() <==> !accepted || StaysDistinct(old(book.Abs()), e)
      ensures forall x {:trigger x in book.Repr()} :: x in book.Repr() && x !in old(book.Repr()) ==> fresh(x)
      ensures accepted <==> old(book.Abs()).Count() < book.pool.capacity
      ensures book.Abs() == SubmitBounded(old(book.Abs()), e, book.pool.capacity).book
      ensures trades == Stamp(SubmitBounded(old(book.Abs()), e, book.pool.capacity).trades, clock)
    {
      hide OrderBook.Core;
      hide OrderBook.Filed;
      hide OrderBook.Standing;
      hide Matched;
      hide Remainder;
      hide LevelMap.Flat;
      hide LevelMap.Begin;
      hide BookSpec.Submit;
      hide StaysDistinct;
      book.ReprHolds({});
      var aggressive := book.Acquire(e, now);
      if aggressive == null {
        book.ValidStanding();
        return false, [];
      }
      book.ReprHolds({aggressive});
      accepted := true;
      trades := Match(aggressive, clock);
    }

    method ProcessNewOrder(id: u64, side: Side, price: int, qty: u64, now: u64, clock: Clock) returns (trades: seq<TradeEvent>)
      requires book.Valid()
      modifies book.Repr()
      ensures book.Standing()
      ensures var b, e := old(book.Abs()), Entry(id, price, qty, qty, side, Limit, New);
              b.Count() < book.pool.capacity && Matched(b, e).left > 0 ==>
                book.Entered(id, Remainder(b, e), now, old(book.Members()))
      ensures var e := Entry(id, price, qty, qty, side, Limit, New);
              book.Valid() <==> old(book.Abs()).Count() >= book.pool.capacity || StaysDistinct(old(book.Abs()), e)
      ensures forall x {:trigger x in book.Repr()} :: x in book.Repr() && x !in old(book.Repr()) ==> fresh(x)
      ensures var out := SubmitBounded(old(book.Abs()), Entry(id, price, qty, qty, side, Limit, New), book.pool.capacity);
              book.Abs() == out.book && trades == Stamp(out.trades, clock)
    {
      hide OrderBook.Core, OrderBook.Filed, OrderBook.Standing, OrderBook.Entered, OrderBook.Repr, Matched, Remainder, StaysDistinct, SubmitBounded;
      var accepted;
      accepted, trades := Submit(Entry(id, price, qty, qty, side, Limit, New), now, clock);
    }

    method ProcessCancelOrder(id: u64) returns (ok: bool)
      requires book.Valid()
      modifies book.Repr()
      ensures book.Valid() && book.Repr() == old(book.Repr())
      ensures ok == old(Resting(book.Abs(), id)) && book.Abs() == Remove(old(book.Abs()), id)
    {
      ok := book.Cancel(id);
    }
  }
}
