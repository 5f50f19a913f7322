/** The order book: two sides, the id index, the cached best levels and the pool. */
module OrderBooks {
  import opened Types
  import opened BookSpec
  import opened Flattening
  import opened ObjectPool
  import opened PriceLevels
  import opened LevelMaps

  /** The id index lists exactly `orders`, each under its own id. */
  ghost predicate Indexed(index: map<u64, Order>, orders: set<Order>)
    reads orders`id
  {
    && (forall k :: k in index ==> index[k] in orders && index[k].id == k)
    && (forall o :: o in orders ==> o.id in index && index[o.id] == o)
  }

  /** The index holds exactly the ids of `orders`, and each leads to an order that carries it. */
  ghost predicate Listing(index: map<u64, Order>, orders: set<Order>)
    reads orders`id
  {
    && (forall k :: k in index ==> index[k] in orders && index[k].id == k)
    && (forall o :: o in orders ==> o.id in index)
  }

  /** Every resting order is New or PartFill. */
  ghost predicate Open(orders: set<Order>)
    reads orders`state
  {
    forall o :: o in orders ==> o.state.New? || o.state.PartFill?
  }

  lemma IndexAdd(index: map<u64, Order>, orders: set<Order>, o: Order)
    requires Indexed(index, orders) && o !in orders && o.id !in index
    ensures Indexed(index[o.id := o], orders + {o}) && |index[o.id := o]| == |index| + 1
  {
  }

  /** Entering an order keeps the index one-to-one if and only if its id was not in it. If it was, the earlier order's entry
      is overwritten: no id leads to that order any more, and the index does not grow. */
  lemma IndexKeptIff(index: map<u64, Order>, orders: set<Order>, o: Order)
    requires Indexed(index, orders) && o !in orders
    ensures Indexed(index[o.id := o], orders + {o}) <==> o.id !in index
    ensures Listing(index[o.id := o], orders + {o})
    ensures o.id !in index ==> |index[o.id := o]| == |index| + 1
    ensures o.id in index ==>
              var index' := index[o.id := o];
              && index[o.id] in orders && |index'| == |index|
              && forall k :: k in index' ==> index'[k] != index[o.id]
  {
    var index' := index[o.id := o];
    if o.id in index {
      assert index[o.id] in orders + {o} && index'[o.id] == o;
      assert index'.Keys == index.Keys;
      assert |index'.Keys| == |index'| && |index.Keys| == |index|;
    } else {
      IndexAdd(index, orders, o);
    }
  }

  lemma IndexDrop(index: map<u64, Order>, orders: set<Order>, o: Order)
    requires Indexed(index, orders) && o in orders
    ensures Indexed(index - {o.id}, orders - {o}) && |index - {o.id}| == |index| - 1
  {
    assert index == (index - {o.id})[o.id := o];
  }

  class OrderBook {
    const bids: LevelMap
    const asks: LevelMap
    const pool: Pool
    var bestBid: PriceLevel?        // cached iterators; null is end()
    var bestAsk: PriceLevel?
    var orderMap: map<u64, Order>

    function On(s: Side): LevelMap {
      if s.Buy? then bids else asks
    }

    function Best(s: Side): PriceLevel?
      reads `bestBid, `bestAsk
    {
      if s.Buy? then bestBid else bestAsk
    }

    ghost function Members(): set<Order>
      reads bids`members, asks`members
    {
      bids.members + asks.members
    }

    ghost function Repr(): set<object>
      reads this, bids, asks, pool
    {
      {this, bids, asks, pool, pool.freeList} + bids.nodes + asks.nodes + pool.slots
    }

    /** The two sides are consistent maps of disjoint objects. */
    ghost predicate Sides()
      reads bids, asks, bids.nodes, asks.nodes
      reads bids.members`prev, bids.members`next, bids.members`remaining, bids.members`price, bids.members`side
      reads asks.members`prev, asks.members`next, asks.members`remaining, asks.members`price, asks.members`side
    {
      && bids.side == Buy && asks.side == Sell && bids.Valid() && asks.Valid()
    }

    /** Index and pool hold exactly `orders`, except that `extra` is live but not resting. */
    ghost predicate Accounted(orders: set<Order>, extra: set<Order>)
      reads `orderMap, pool, pool.freeList, orders`id, orders`state
    {
      && pool.Valid()
      && pool.live == orders + extra && orders !! extra
      && Indexed(orderMap, orders) && Open(orders)
      && |orderMap| + |extra| == pool.freeIndex
    }

    /** Index, queues and pool hold the same orders, except that `extra` is live but not yet resting. */
    ghost predicate Core(extra: set<Order>)
      reads `orderMap, bids, asks, bids.nodes, asks.nodes, bids.members, asks.members, pool, pool.freeList
    {
      Sides() && Accounted(Members(), extra)
    }

    /** `Core`, but for ids that rest twice: of the orders with such an id, the index leads to one. */
    ghost predicate Filed(extra: set<Order>)
      reads `orderMap, bids, asks, bids.nodes, asks.nodes, bids.members, asks.members, pool, pool.freeList
    {
      && Sides() && pool.Valid() && pool.live == Members() + extra && Members() !! extra && Open(Members())
      && Listing(orderMap, Members())
    }

    /** What every operation leaves, whatever ids it is given. */
    ghost predicate Standing()
      reads this, bids, asks, bids.nodes, asks.nodes, bids.members, asks.members, pool, pool.freeList
    {
      Filed({}) && bestBid == bids.Begin() && bestAsk == asks.Begin()
    }

    /** The id leads to the resting order `o`, which is as `v` says and has the timestamp `now`. */
    ghost predicate Leads(id: u64, o: Order, v: Entry, now: u64)
      reads `orderMap, bids`members, asks`members, o
    {
      id in orderMap && orderMap[id] == o && o in Members() && o.Value() == v && o.timestamp == now
    }

    /** The id leads to an order that is as `v` says, has the timestamp `now` and did not rest among `was`. */
    ghost predicate Entered(id: u64, v: Entry, now: u64, was: set<Order>)
      reads `orderMap, bids`members, asks`members, bids.members, asks.members
    {
      && id in orderMap && orderMap[id] in Members() && orderMap[id] !in was
      && orderMap[id].Value() == v && orderMap[id].timestamp == now
    }

    /** No id leads to `p`, and the index falls short of the slots in use. */
    ghost predicate Unlisted(p: Order)
      reads `orderMap, pool, pool.freeList
    {
      && (forall k :: k in orderMap ==> orderMap[k] != p)
      && pool.Valid() && |orderMap| < pool.Used()
    }

    /** An order the index has lost: it rests, but can no longer be cancelled, and `size()` and `pool.used()` disagree. */
    ghost predicate Lost(p: Order)
      reads `orderMap, bids`members, asks`members, pool, pool.freeList
    {
      p in Members() && Unlisted(p)
    }

    ghost predicate Valid()
      reads this, bids, asks, bids.nodes, asks.nodes, bids.members, asks.members, pool, pool.freeList
    {
      Core({}) && bestBid == bids.Begin() && bestAsk == asks.Begin()
    }

    /** The abstract book. */
    ghost function Abs(): Book
      reads bids, asks
      reads bids.members`id, bids.members`price, bids.members`qty, bids.members`remaining, bids.members`side, bids.members`typ, bids.members`state
      reads asks.members`id, asks.members`price, asks.members`qty, asks.members`remaining, asks.members`side, asks.members`typ, asks.members`state
    {
      Book(bids.Flat(), asks.Flat())
    }

    constructor (capacity: nat)
      ensures Valid() && Abs() == EMPTY && pool.capacity == capacity
      ensures fresh(bids) && fresh(asks) && bids.nodes == {} && asks.nodes == {}
      ensures fresh(pool) && fresh(pool.freeList) && fresh(pool.slots) && fresh(Repr())
    {
      hide *;
      bids := new LevelMap(Buy);
      asks := new LevelMap(Sell);
      pool := new Pool(capacity);
      bestBid, bestAsk := null, null;
      orderMap := map[];
      new;
      bids.FlatEmpty();
      asks.FlatEmpty();
      EmptyIsValid();
      ReprIs();
    }

    lemma ReprIs()
      ensures Repr() == {this, bids, asks, pool, pool.freeList} + bids.nodes + asks.nodes + pool.slots
    {
    }

    lemma EmptyIsValid()
      requires bids.side == Buy && asks.side == Sell && bids.Valid() && asks.Valid() && pool.Valid()
      requires bids.members == {} && asks.members == {} && orderMap == map[] && pool.live == {} && bids.Flat() == asks.Flat() == []
      requires bestBid == bids.Begin() && bestAsk == asks.Begin()
      ensures Valid() && Abs() == EMPTY
    {
    }

    /** `m` is one side and `other` the other one. */
    ghost predicate Pair(m: LevelMap, other: LevelMap) {
      (m == bids && other == asks) || (m == asks && other == bids)
    }

    lemma CoreParts(extra: set<Order>)
      requires Core(extra)
      ensures Sides() && Accounted(Members(), extra) && Members() !! extra
    {
    }

    lemma CoreSides(extra: set<Order>, s: Side)
      requires Core(extra)
      ensures Pair(On(s), On(Opposite(s))) && On(s).side == s && On(s).Valid() && On(Opposite(s)).Valid()
      ensures On(s) != On(Opposite(s))
    {
    }

    lemma AccountedParts(orders: set<Order>, extra: set<Order>)
      requires Accounted(orders, extra)
      ensures pool.Valid() && pool.live == orders + extra && orders !! extra && pool.live <= pool.slots
      ensures Indexed(orderMap, orders) && Open(orders) && |orderMap| + |extra| == pool.freeIndex
    {
    }

    lemma AccountedIntro(orders: set<Order>, extra: set<Order>)
      requires pool.Valid() && pool.live == orders + extra && orders !! extra
      requires Indexed(orderMap, orders) && Open(orders) && |orderMap| + |extra| == pool.freeIndex
      ensures Accounted(orders, extra)
    {
    }

    lemma CoreIntro(extra: set<Order>)
      requires Sides() && Accounted(Members(), extra)
      ensures Core(extra)
    {
    }

    /** `order_map_[order->id] = order` */
    method Admit(order: Order, ghost orders: set<Order>)
      requires Accounted(orders, {order}) && (order.state.New? || order.state.PartFill?)
      modifies `orderMap
      ensures pool.Valid() && pool.live == orders + {order} && Open(orders + {order})
      ensures orderMap == old(orderMap)[order.id := order]
      ensures Accounted(orders + {order}, {}) <==> order.id !in old(orderMap)
      ensures Listing(orderMap, orders + {order})
      ensures order.id in old(orderMap) ==> old(orderMap)[order.id] in orders && Unlisted(old(orderMap)[order.id])
    {
      hide *;
      AccountedParts(orders, {order});
      IndexKeptIff(orderMap, orders, order);
      OpenWith(orders, order);
      orderMap := orderMap[order.id := order];
      AccountedIff(orders + {order});
      if order.id in old(orderMap) {
        UnlistedIntro(old(orderMap)[order.id]);
      }
    }

    lemma OpenWith(orders: set<Order>, o: Order)
      requires Open(orders) && (o.state.New? || o.state.PartFill?)
      ensures Open(orders + {o})
    {
    }

    lemma AccountedIff(orders: set<Order>)
      requires pool.Valid() && pool.live == orders && Open(orders)
      ensures Accounted(orders, {}) <==> Indexed(orderMap, orders) && |orderMap| == pool.freeIndex
    {
      hide Indexed, Open, Pool.Valid;
    }

    lemma UnlistedIntro(p: Order)
      requires (forall k :: k in orderMap ==> orderMap[k] != p) && pool.Valid() && |orderMap| < pool.freeIndex
      ensures Unlisted(p)
    {
    }

    lemma SidesApart(m: LevelMap, other: LevelMap)
      requires Sides() && Pair(m, other)
      ensures bids.side == Buy && asks.side == Sell
      ensures m != other && m.nodes !! other.nodes && m.members !! other.members && m.side != other.side
      ensures m.Valid() && other.Valid() && Members() == m.members + other.members
      ensures m == On(m.side) && other == On(other.side)
    {
      bids.MemberSide();
      asks.MemberSide();
    }

    lemma SidesIntro(m: LevelMap, other: LevelMap)
      requires Pair(m, other) && m.Valid() && other.Valid() && bids.side == Buy && asks.side == Sell
      ensures Sides() && Members() == m.members + other.members
    {
    }

    /** `refresh_best_bid_ask(side, price)`: dereferences the cached iterator, which must not dangle. */
    method RefreshSide(side: Side, price: int)
      requires On(side).Valid()
      requires Best(side) != null ==> Best(side).price in On(side).levels && On(side).levels[Best(side).price] == Best(side)
      modifies `bestBid, `bestAsk
      ensures Best(Opposite(side)) == old(Best(Opposite(side)))
      ensures Best(side) == if old(Best(side)) == null || Better(side, price, old(Best(side)).price)
                            then On(side).Begin() else old(Best(side))
    {
      if side == Buy {
        if bestBid == null || price > bestBid.price {
          bestBid := bids.Begin();
        }
      } else {
        if bestAsk == null || price < bestAsk.price {
          bestAsk := asks.Begin();
        }
      }
    }

    method Refresh()
      modifies `bestBid, `bestAsk
      ensures bestBid == bids.Begin() && bestAsk == asks.Begin()
    {
      bestBid := bids.Begin();
      bestAsk := asks.Begin();
    }

    /** Pushes a new order to the back of its level on its own side `m`. */
    method PushSide(order: Order, m: LevelMap, ghost other: LevelMap)
      requires Sides() && order !in Members() && order.side == m.side && Pair(m, other)
      modifies m`levels, m`queues, m`nodes, m`members, m.nodes`head, m.nodes`tail, m.nodes`queue, m.nodes`totalQty, m.nodes`orderCount
      modifies m.members`next, order`prev, order`next
      ensures Sides() && Members() == old(Members()) + {order}
      ensures forall n :: n in m.nodes ==> n in old(m.nodes) || fresh(n)
      ensures old(m.Begin()) != null ==> old(m.Begin()).price in m.levels && m.levels[old(m.Begin()).price] == old(m.Begin())
      ensures old(m.Begin()) != null && !Better(m.side, order.price, old(m.Begin()).price) ==> m.Begin() == old(m.Begin())
      ensures m.Flat() == Insert(m.side, old(m.Flat()), order.Value())
      ensures other.Flat() == old(other.Flat()) && other.Begin() == old(other.Begin())
    {
      hide *;
      SidesApart(m, other);
      m.PushBack(order);
      other.Untouched();
      SidesIntro(m, other);
    }

    /** The insertions of `add_resting`: the index entry, then the back of the order's level. */
    method Enter(order: Order, m: LevelMap, ghost other: LevelMap, ghost orders: set<Order>)
      requires Sides() && orders == Members() && Accounted(orders, {order}) && order !in orders
      requires (order.state.New? || order.state.PartFill?) && m.side == order.side && Pair(m, other)
      modifies `orderMap, m`levels, m`queues, m`nodes, m`members
      modifies m.nodes`head, m.nodes`tail, m.nodes`queue, m.nodes`totalQty, m.nodes`orderCount
      modifies m.members`next, order`prev, order`next
      ensures Sides() && Members() == orders + {order} && orderMap == old(orderMap)[order.id := order]
      ensures pool.Valid() && pool.live == orders + {order} && Open(orders + {order})
      ensures Accounted(orders + {order}, {}) <==> order.id !in old(orderMap)
      ensures Listing(orderMap, orders + {order})
      ensures order.id in old(orderMap) ==> old(orderMap)[order.id] in orders && Unlisted(old(orderMap)[order.id])
      ensures forall n :: n in m.nodes ==> n in old(m.nodes) || fresh(n)
      ensures old(m.Begin()) != null ==> old(m.Begin()).price in m.levels && m.levels[old(m.Begin()).price] == old(m.Begin())
      ensures old(m.Begin()) != null && !Better(m.side, order.price, old(m.Begin()).price) ==> m.Begin() == old(m.Begin())
      ensures m.Flat() == Insert(m.side, old(m.Flat()), order.Value())
      ensures other.Flat() == old(other.Flat()) && other.Begin() == old(other.Begin())
    {
      hide *;
      Admit(order, orders);
      PushSide(order, m, other);
    }

    /** What they leave of the invariant. */
    method Enqueue(order: Order, m: LevelMap, ghost other: LevelMap)
      requires Core({order}) && (order.state.New? || order.state.PartFill?)
      requires m.side == order.side && Pair(m, other)
      modifies `orderMap, m`levels, m`queues, m`nodes, m`members
      modifies m.nodes`head, m.nodes`tail, m.nodes`queue, m.nodes`totalQty, m.nodes`orderCount
      modifies m.members`next, order`prev, order`next
      ensures Filed({}) && orderMap == old(orderMap)[order.id := order]
      ensures order in Members()
      ensures Core({}) <==> order.id !in old(orderMap)
      ensures order.id in old(orderMap) ==> Lost(old(orderMap)[order.id])
      ensures forall n :: n in m.nodes ==> n in old(m.nodes) || fresh(n)
      ensures old(m.Begin()) != null ==> old(m.Begin()).price in m.levels && m.levels[old(m.Begin()).price] == old(m.Begin())
      ensures old(m.Begin()) != null && !Better(m.side, order.price, old(m.Begin()).price) ==> m.Begin() == old(m.Begin())
      ensures m.Flat() == Insert(m.side, old(m.Flat()), order.Value())
      ensures other.Flat() == old(other.Flat()) && other.Begin() == old(other.Begin())
    {
      hide *;
      CoreParts({order});
      ghost var orders := Members();
      Enter(order, m, other, orders);
      FiledIff(orders + {order});
      if order.id in old(orderMap) {
        LostIntro(old(orderMap)[order.id]);
      }
    }

    lemma FiledIff(orders: set<Order>)
      requires Sides() && Members() == orders && pool.Valid() && pool.live == orders && Open(orders)
      requires Listing(orderMap, orders)
      ensures Filed({}) && (Core({}) <==> Accounted(orders, {}))
    {
      hide Sides, Members, Open, Accounted, Listing, Pool.Valid;
    }

    lemma LostIntro(p: Order)
      requires p in Members() && Unlisted(p)
      ensures Lost(p)
    {
    }

    lemma CoreFiled(extra: set<Order>)
      requires Core(extra)
      ensures Filed(extra)
    {
    }

    /** Index or not, the two sides are in order. */
    lemma FiledSide(extra: set<Order>, s: Side)
      requires Filed(extra)
      ensures Sides() && Pair(On(s), On(Opposite(s))) && On(s).side == s && On(s).Valid() && On(Opposite(s)).Valid()
    {
    }

    /** `add_resting` on its side `m`. */
    method RestOn(order: Order, m: LevelMap, ghost other: LevelMap)
      requires Core({order}) && (order.state.New? || order.state.PartFill?)
      requires m.side == order.side && Pair(m, other) && m == On(order.side) && Best(order.side) == m.Begin()
      modifies `orderMap, `bestBid, `bestAsk, m`levels, m`queues, m`nodes, m`members
      modifies m.nodes`head, m.nodes`tail, m.nodes`queue, m.nodes`totalQty, m.nodes`orderCount
      modifies m.members`next, order`prev, order`next
      ensures Filed({}) && orderMap == old(orderMap)[order.id := order]
      ensures order in Members()
      ensures Core({}) <==> order.id !in old(orderMap)
      ensures order.id in old(orderMap) ==> Lost(old(orderMap)[order.id])
      ensures forall n :: n in m.nodes ==> n in old(m.nodes) || fresh(n)
      ensures m.Flat() == Insert(m.side, old(m.Flat()), order.Value())
      ensures other.Flat() == old(other.Flat()) && other.Begin() == old(other.Begin())
      ensures Best(order.side) == m.Begin() && Best(Opposite(order.side)) == old(Best(Opposite(order.side)))
    {
      hide *;
      Enqueue(order, m, other);
      FiledSide({}, order.side);
      RefreshSide(order.side, order.price);
    }

    /** `add_resting`: the order rests in price-time order whatever its id; the book stays consistent if and only if the id was
        fresh, and otherwise loses the earlier order. The cached iterator of the order's own side must be current; the one of the other side
        may dangle and is not looked at. */
    method AddResting(order: Order)
      requires Core({order}) && (order.state.New? || order.state.PartFill?)
      requires Best(order.side) == On(order.side).Begin()
      modifies `orderMap, `bestBid, `bestAsk
      modifies On(order.side)`levels, On(order.side)`queues, On(order.side)`nodes, On(order.side)`members
      modifies On(order.side).nodes`head, On(order.side).nodes`tail, On(order.side).nodes`queue,
               On(order.side).nodes`totalQty, On(order.side).nodes`orderCount
      modifies On(order.side).members`next, order`prev, order`next
      ensures Filed({}) && orderMap == old(orderMap)[order.id := order]
      ensures Core({}) <==> order.id !in old(orderMap)
      ensures order.id in old(orderMap) ==> Lost(old(orderMap)[order.id])
      ensures Best(order.side) == On(order.side).Begin()
      ensures Best(Opposite(order.side)) == old(Best(Opposite(order.side)))
      ensures On(Opposite(order.side)).Begin() == old(On(Opposite(order.side)).Begin())
      ensures forall n :: n in On(order.side).nodes ==> n in old(On(order.side).nodes) || fresh(n)
      ensures Abs() == Place(old(Abs()), order.Value()) && order in Members()
    {
      hide *;
      CoreSides({order}, order.side);
      RestOn(order, On(order.side), On(Opposite(order.side)));
      AbsAfterPush(order);
    }

    twostate lemma AbsAfterPush(order: Order)
      requires old(Core({order})) && Filed({})
      requires var m, other := On(order.side), On(Opposite(order.side));
               m.Flat() == Insert(order.side, old(m.Flat()), order.Value()) && other.Flat() == old(other.Flat())
      ensures Abs() == Place(old(Abs()), order.Value())
    {
    }

    /** Unlinks `o` from its level on its side `m`, and drops the level if that empties it. */
    method DropSide(o: Order, m: LevelMap, ghost other: LevelMap, ghost k: nat)
      requires Sides() && o in m.members && Pair(m, other)
      requires o.price in m.queues && o.price in m.levels && k < |m.queues[o.price]| && m.queues[o.price][k] == o
      modifies m`members, m`queues, m`levels
      modifies m.nodes`head, m.nodes`tail, m.nodes`queue, m.nodes`totalQty, m.nodes`orderCount
      modifies m.members`prev, m.members`next
      ensures Sides() && Members() == old(Members()) - {o} && m.members == old(m.members) - {o}
      ensures m.Flat() == Flatten(m.side, old(Contents(TakenOut(m.queues, o.price, k))))
      ensures other.Flat() == old(other.Flat()) && other.Begin() == old(other.Begin())
    {
      hide *;
      SidesApart(m, other);
      m.Extract(o, k);
      other.Untouched();
      SidesIntro(m, other);
    }

    method Unindex(o: Order, ghost orders: set<Order>)
      requires Indexed(orderMap, orders) && o in orders
      modifies `orderMap
      ensures orderMap == old(orderMap) - {o.id} && Indexed(orderMap, orders - {o})
      ensures |orderMap| == |old(orderMap)| - 1
    {
      hide *;
      IndexDrop(orderMap, orders, o);
      orderMap := orderMap - {o.id};
    }

    /** `order_map_.erase(o->id)`, then `pool_->deallocate(o)` */
    method Release(o: Order, ghost orders: set<Order>, ghost extra: set<Order>)
      requires pool.Valid() && pool.live == orders + extra && orders !! extra && o in orders
      requires Indexed(orderMap, orders) && Open(orders - {o}) && |orderMap| + |extra| == pool.freeIndex
      modifies `orderMap, pool, pool.freeList
      ensures Accounted(orders - {o}, extra) && orderMap == old(orderMap) - {o.id}
      ensures pool.slots == old(pool.slots)
    {
      hide *;
      Unindex(o, orders);
      pool.Deallocate(o);
      AccountedIntro(orders - {o}, extra);
    }

    /** Which ids rest. */
    lemma IdsOf(id: u64, extra: set<Order>)
      requires Core(extra)
      ensures Resting(Abs(), id) <==> id in orderMap
    {
      bids.FlatMembers(id);
      asks.FlatMembers(id);
      if id in orderMap {
        assert orderMap[id] in Members();
      }
    }

    lemma RestingIds(id: u64)
      requires Valid()
      ensures Resting(Abs(), id) <==> id in orderMap
    {
      IdsOf(id, {});
    }

    /** The abstract book, the index and the pool agree on the number of orders. */
    lemma Counts(extra: set<Order>)
      requires Core(extra)
      ensures Abs().Count() == |orderMap| == |Members()| && pool.Used() == |orderMap| + |extra|
    {
      SidesApart(bids, asks);
      bids.FlatCount();
      asks.FlatCount();
    }

    /** `order_map_.size()` */
    function Size(): (n: nat)
      requires Valid()
      reads this, bids, asks, bids.nodes, asks.nodes, bids.members, asks.members, pool, pool.freeList
      ensures n == Abs().Count() == pool.Used()
    {
      Counts({});
      |orderMap|
    }

    method TakeSlot(e: Entry, now: u64) returns (o: Order?)
      requires pool.Valid()
      modifies pool, pool.freeList, pool.slots - pool.live
      ensures pool.Valid() && pool.slots == old(pool.slots)
      ensures o == null <==> old(pool.freeIndex) == pool.capacity
      ensures o == null ==> pool.live == old(pool.live) && pool.freeIndex == old(pool.freeIndex)
      ensures o != null ==> o in pool.slots && o !in old(pool.live) && o.Value() == e && o.timestamp == now
      ensures o != null ==> pool.live == old(pool.live) + {o} && pool.freeIndex == old(pool.freeIndex) + 1
    {
      hide *;
      o := pool.Allocate();
      if o != null {
        o.Receive(e, now);
      }
    }

    /** What a standing book answers: the index knows exactly the resting ids, and each leads to an order that carries it. */
    lemma StandingIds(id: u64)
      requires Standing()
      ensures Resting(Abs(), id) <==> id in orderMap
      ensures id in orderMap ==> orderMap[id] in Members() && orderMap[id].id == id
    {
      bids.FlatMembers(id);
      asks.FlatMembers(id);
      if id in orderMap {
        assert orderMap[id] in Members();
      }
    }

    lemma LeadsEntered(id: u64, o: Order, v: Entry, now: u64, was: set<Order>)
      requires Leads(id, o, v, now) && o !in was
      ensures Entered(id, v, now, was)
    {
    }

    lemma ValidStanding()
      requires Valid()
      ensures Standing()
    {
      CoreFiled({});
    }

    lemma BestOf(side: Side)
      requires Standing()
      ensures Best(side) != null <==> Abs().On(side) != []
      ensures Best(side) != null ==>
              && Best(side).head != null && Best(side).head in Members()
              && Best(side).head.Value() == Abs().On(side)[0] && Best(side).price == Abs().On(side)[0].price
    {
      FiledSide({}, side);
      var m := On(side);
      m.FlatHead();
      if m.levels != map[] {
        var _, _ := m.FlatFront();
      }
    }

    /** `has_bids`, `has_asks` */
    function HasBest(side: Side): (r: bool)
      requires Standing()
      reads this, bids, asks, bids.nodes, asks.nodes, bids.members, asks.members, pool, pool.freeList
      ensures r <==> Abs().On(side) != []
    {
      BestOf(side);
      Best(side) != null
    }

    /** `get_best_bid`, `get_best_ask`: the level whose front order is the first of the side. */
    function GetBest(side: Side): (l: PriceLevel)
      requires Standing() && Abs().On(side) != []
      reads this, bids, asks, bids.nodes, asks.nodes, bids.members, asks.members, pool, pool.freeList
      ensures l.head != null && l.head in Members()
      ensures l.head.Value() == Abs().On(side)[0] && l.price == Abs().On(side)[0].price
    {
      BestOf(side);
      Best(side)
    }

    /** Takes a slot for a new order and fills it in; fails exactly when the pool is full. */
    method Acquire(e: Entry, now: u64) returns (o: Order?)
      requires Core({})
      modifies pool, pool.freeList, pool.slots - pool.live
      ensures pool.slots == old(pool.slots)
      ensures o == null <==> old(Abs()).Count() >= pool.capacity
      ensures o == null ==> Core({})
      ensures o != null ==> Core({o}) && o.Value() == e && o in pool.slots && o !in Members() && o.timestamp == now
      ensures bids.Flat() == old(bids.Flat()) && asks.Flat() == old(asks.Flat())
    {
      hide *;
      Counts({});
      CoreParts({});
      SidesApart(bids, asks);
      AccountedParts(Members(), {});
      ghost var orders := Members();
      o := TakeSlot(e, now);
      bids.Untouched();
      asks.Untouched();
      SidesIntro(bids, asks);
      AccountedIntro(orders, if o == null then {} else {o});
      CoreIntro(if o == null then {} else {o});
    }

    /** A slot that is taken but holds no resting order leaves the book inconsistent. */
    lemma LeakBreaks(o: Order)
      requires Core({o})
      ensures !Valid()
    {
      hide Sides, Indexed, Open, Pool.Valid;
      assert o in pool.live && o !in Members();
    }

    lemma ReprHolds(extra: set<Order>)
      requires Core(extra)
      ensures {this, bids, asks, pool, pool.freeList} <= Repr()
      ensures forall n :: n in bids.nodes || n in asks.nodes ==> n in Repr()
      ensures forall o :: o in pool.slots || o in bids.members || o in asks.members || o in extra ==> o in Repr()
    {
    }

    /** Rests a new order without matching it; fails exactly when the pool is full. The book stays consistent if and only if
        it failed or the id was fresh. */
    method Add(id: u64, side: Side, price: int, qty: u64, now: u64) returns (o: Order?)
      requires Valid()
      modifies Repr()
      ensures Standing() && forall x {:trigger x in Repr()} :: x in Repr() && x !in old(Repr()) ==> fresh(x)
      ensures orderMap == if o == null then old(orderMap) else old(orderMap)[id := o]
      ensures o != null ==> Leads(id, o, Entry(id, price, qty, qty, side, Limit, New), now) && o !in old(Members())
      ensures o == null <==> old(Abs()).Count() >= pool.capacity
      ensures Abs() == BookSpec.Add(old(Abs()), id, side, price, qty, pool.capacity)
      ensures Valid() <==> o == null || id !in old(orderMap)
      ensures o != null && id in old(orderMap) ==> Lost(old(orderMap)[id])
    {
      hide Core;
      hide Filed;
      hide Lost;
      hide LevelMap.Flat;
      hide LevelMap.Begin;
      hide Members;
      hide Insert;
      hide Place;
      ReprHolds({});
      o := Acquire(Entry(id, price, qty, qty, side, Limit, New), now);
      if o == null {
        ValidStanding();
        return;
      }
      ReprHolds({o});
      RestNew(o);
    }

    /** `add_resting` with both cached levels current. */
    method RestNew(o: Order)
      requires Core({o}) && o.state.New? && bestBid == bids.Begin() && bestAsk == asks.Begin()
      modifies Repr()
      ensures Standing() && forall x {:trigger x in Repr()} :: x in Repr() && x !in old(Repr()) ==> fresh(x)
      ensures orderMap == old(orderMap)[old(o.id) := o] && Leads(old(o.id), o, old(o.Value()), old(o.timestamp))
      ensures Abs() == Place(old(Abs()), old(o.Value()))
      ensures Valid() <==> old(o.id) !in old(orderMap)
      ensures old(o.id) in old(orderMap) ==> Lost(old(orderMap)[old(o.id)])
    {
      hide Core;
      hide Filed;
      hide Lost;
      hide LevelMap.Flat;
      hide LevelMap.Begin;
      hide Members;
      hide Place;
      ReprHolds({o});
      AddResting(o);
    }

    /** `Core`, but for the state of `o`, which is about to leave the book. */
    ghost predicate Closing(o: Order, extra: set<Order>)
      reads `orderMap, bids, asks, bids.nodes, asks.nodes, bids.members, asks.members, pool, pool.freeList
    {
      && Sides() && pool.Valid()
      && o in Members()
      && pool.live == Members() + extra && Members() !! extra
      && Indexed(orderMap, Members()) && Open(Members() - {o})
      && |orderMap| + |extra| == pool.freeIndex
    }

    lemma ClosingParts(o: Order, extra: set<Order>)
      requires Closing(o, extra)
      ensures Sides() && pool.Valid() && o in Members() && pool.live == Members() + extra && Members() !! extra
      ensures Indexed(orderMap, Members()) && Open(Members() - {o}) && |orderMap| + |extra| == pool.freeIndex
    {
    }

    /** Index and pool let go of an order that is no longer in its level. */
    method Retire(o: Order, ghost orders: set<Order>, ghost extra: set<Order>)
      requires Sides() && Members() == orders - {o}
      requires pool.Valid() && pool.live == orders + extra && orders !! extra && o in orders
      requires Indexed(orderMap, orders) && Open(orders - {o}) && |orderMap| + |extra| == pool.freeIndex
      modifies `orderMap, pool, pool.freeList
      ensures Core(extra) && orderMap == old(orderMap) - {o.id} && pool.slots == old(pool.slots)
      ensures bids.Flat() == old(bids.Flat()) && bids.Begin() == old(bids.Begin())
      ensures asks.Flat() == old(asks.Flat()) && asks.Begin() == old(asks.Begin())
    {
      hide *;
      SidesApart(bids, asks);
      Release(o, orders, extra);
      bids.Untouched();
      asks.Untouched();
      CoreIntro(extra);
    }

    /** Takes `o` out of its level, the index and the pool. */
    method Purge(o: Order, m: LevelMap, ghost other: LevelMap, ghost k: nat, ghost extra: set<Order>)
      requires Closing(o, extra) && o in m.members && Pair(m, other)
      requires o.price in m.queues && o.price in m.levels && k < |m.queues[o.price]| && m.queues[o.price][k] == o
      modifies `orderMap, pool, pool.freeList, m`members, m`queues, m`levels
      modifies m.nodes`head, m.nodes`tail, m.nodes`queue, m.nodes`totalQty, m.nodes`orderCount
      modifies m.members`prev, m.members`next
      ensures Core(extra) && orderMap == old(orderMap) - {o.id} && pool.slots == old(pool.slots)
      ensures m.members == old(m.members) - {o}
      ensures m.Flat() == Flatten(m.side, old(Contents(TakenOut(m.queues, o.price, k))))
      ensures other.Flat() == old(other.Flat()) && other.Begin() == old(other.Begin())
    {
      hide *;
      ClosingParts(o, extra);
      ghost var orders := Members();
      PairFlats(m, other);
      DropSide(o, m, other, k);
      Retire(o, orders, extra);
    }

    lemma ClosingIntro(o: Order, extra: set<Order>)
      requires Sides() && pool.Valid() && o in Members() && pool.live == Members() + extra && Members() !! extra
      requires Indexed(orderMap, Members()) && Open(Members() - {o}) && |orderMap| + |extra| == pool.freeIndex
      ensures Closing(o, extra)
    {
    }

    lemma OpenWithout(orders: set<Order>, o: Order)
      requires Open(orders)
      ensures Open(orders - {o})
    {
    }

    /** What taking `o` out of its side does to the two priority lists. */
    lemma TakeAway(o: Order, m: LevelMap, other: LevelMap, extra: set<Order>) returns (k: nat)
      requires Core(extra) && o in m.members && Pair(m, other)
      ensures o.price in m.queues && o.price in m.levels && k < |m.queues[o.price]| && m.queues[o.price][k] == o
      ensures var qs := TakenOut(m.queues, o.price, k);
              Flatten(m.side, Contents(qs)) == Without(m.Flat(), o.id) && Queued(qs) == m.members - {o}
      ensures Without(other.Flat(), o.id) == other.Flat()
    {
      SidesApart(m, other);
      k := m.Position(o);
      m.IdsUnique();
      m.FlatAfterTake(o);
      other.FlatMembers(o.id);
      assert forall x :: x in other.members ==> x in Members();
      assert !HasId(other.Flat(), o.id);
      WithoutAbsent(other.Flat(), o.id);
    }

    /** `o->state = Cancelled`, while `o` is still linked: no other order's value changes. */
    method Mark(o: Order, m: LevelMap, ghost other: LevelMap, ghost qs: Queues)
      requires Core({}) && o in m.members && Pair(m, other) && Queued(qs) == m.members - {o}
      modifies {o}`state
      ensures Closing(o, {}) && Contents(qs) == old(Contents(qs)) && other.Flat() == old(other.Flat())
    {
      hide *;
      CoreParts({});
      SidesApart(m, other);
      AccountedParts(Members(), {});
      OpenWithout(Members(), o);
      o.state := Cancelled;
      ClosingIntro(o, {});
    }

    /** The body of `cancel` for a resting order `o` on its side `m`. */
    method CancelOn(o: Order, m: LevelMap, ghost other: LevelMap)
      requires Core({}) && o in m.members && Pair(m, other)
      modifies `orderMap, pool, pool.freeList, m`members, m`queues, m`levels, {o}`state
      modifies m.nodes`head, m.nodes`tail, m.nodes`queue, m.nodes`totalQty, m.nodes`orderCount
      modifies m.members`prev, m.members`next
      ensures Core({}) && orderMap == old(orderMap) - {o.id} && pool.slots == old(pool.slots)
      ensures m.Flat() == Without(old(m.Flat()), o.id)
      ensures other.Flat() == Without(old(other.Flat()), o.id)
    {
      hide *;
      ghost var k := TakeAway(o, m, other, {});
      Mark(o, m, other, TakenOut(m.queues, o.price, k));
      Purge(o, m, other, k, {});
    }

    lemma RestingOrder(id: u64)
      requires Valid() && id in orderMap
      ensures var o := orderMap[id];
              o.id == id && o in On(o.side).members && (o.state.New? || o.state.PartFill?)
      ensures Pair(bids, asks) && Pair(asks, bids)
    {
      assert orderMap[id] in Members();
      bids.MemberSide();
      asks.MemberSide();
    }

    /** Removes a resting order; succeeds exactly when the id rests. The guard against orders that are
        already cancelled or filled never fires. */
    method Cancel(id: u64) returns (ok: bool)
      requires Valid()
      modifies Repr()
      ensures Valid() && Repr() == old(Repr())
      ensures ok == old(Resting(Abs(), id))
      ensures orderMap == old(orderMap) - {id}
      ensures Abs() == Remove(old(Abs()), id)
    {
      hide Core;
      hide LevelMap.Flat;
      hide LevelMap.Begin;
      hide Resting;
      hide Pair;
      RestingIds(id);
      ReprHolds({});
      if id !in orderMap {
        RemoveAbsent(Abs(), id);
        ok := false;
      } else {
        var o := orderMap[id];
        RestingOrder(id);
        if o.state.Cancelled? || o.state.Filled? {
          assert false;
        }
        if o.side == Buy {
          CancelOn(o, bids, asks);
        } else {
          CancelOn(o, asks, bids);
        }
        Refresh();
        ok := true;
      }
    }

    /** Cancel, then add with the new quantity: never fails for a resting id, since the cancel frees the slot
        that the add takes. */
    method Modify(id: u64, newQty: u64, now: u64) returns (ok: bool)
      requires Valid()
      modifies Repr()
      ensures Valid() && forall x {:trigger x in Repr()} :: x in Repr() && x !in old(Repr()) ==> fresh(x)
      ensures ok == old(Resting(Abs(), id))
      ensures Abs() == BookSpec.Modify(old(Abs()), id, newQty, pool.capacity)
      ensures ok ==>
              var e := Find(old(Abs()), id);
              Entered(id, Entry(id, e.price, newQty, newQty, e.side, Limit, New), now, {})
    {
      hide *;
      RestingIds(id);
      if id !in orderMap {
        ModifyAbsent(Abs(), id, newQty, pool.capacity);
        return false;
      }
      var o := orderMap[id];
      var side, price := o.side, o.price;
      FindResting(id);
      ModifyPresent(Abs(), id, newQty, pool.capacity);
      ok := Cancel(id);
      CountIs();
      if ok {
        var r := Add(id, side, price, newQty, now);
        ok := r != null;
        if ok {
          LeadsEntered(id, r, Entry(id, price, newQty, newQty, side, Limit, New), now, {});
        }
      }
    }

    lemma FindResting(id: u64)
      requires Valid() && id in orderMap
      ensures Resting(Abs(), id)
      ensures var e := Find(Abs(), id); e.side == orderMap[id].side && e.price == orderMap[id].price
      ensures 0 < |orderMap| <= pool.capacity
    {
      RestingIds(id);
      var e := Find(Abs(), id);
      bids.FlatEntry(e);
      asks.FlatEntry(e);
    }

    lemma CountIs()
      requires Valid()
      ensures Abs().Count() == |orderMap|
    {
      Counts({});
    }

    lemma CoreFromClosing(o: Order, extra: set<Order>)
      requires Closing(o, extra) && (o.state.New? || o.state.PartFill?)
      ensures Core(extra)
    {
    }

    /** The front order of a side. */
    lemma Front(m: LevelMap, other: LevelMap, extra: set<Order>) returns (l: PriceLevel, passive: Order)
      requires Core(extra) && Pair(m, other) && m.levels != map[]
      ensures l == m.Begin() && passive == l.head && passive in m.members && passive !in extra
      ensures l in m.nodes && passive.price == l.price && m.Valid()
      ensures l.price in m.queues && l.price in m.levels && m.queues[l.price] != [] && m.queues[l.price][0] == passive
      ensures m.Flat() != [] && m.Flat()[0] == passive.Value()
    {
      SidesApart(m, other);
      var rest;
      l, rest := m.FlatFront();
      passive := l.head;
      assert passive in Members();
    }

    /** Fills part or all of the front order of side `m`, which leaves it fit to be purged. */
    method FillPassive(l: PriceLevel, passive: Order, fill: u64, m: LevelMap, ghost other: LevelMap, ghost extra: set<Order>)
      requires Core(extra) && Pair(m, other) && m.levels != map[] && l == m.Begin() && passive == l.head
      requires l in m.nodes && passive in m.members && fill <= passive.remaining
      modifies l`totalQty, {passive}`remaining, {passive}`state
      ensures Closing(passive, extra) && passive.remaining == old(passive.remaining) - fill
      ensures passive.state == StateAfter(passive.remaining)
      ensures old(m.Flat()) != [] && m.Flat() == [passive.Value()] + old(m.Flat())[1..]
      ensures other.Flat() == old(other.Flat()) && other.Begin() == old(other.Begin())
    {
      hide *;
      CoreParts(extra);
      SidesApart(m, other);
      AccountedParts(Members(), extra);
      OpenWithout(Members(), passive);
      m.Trade(l, passive, fill);
      other.Untouched();
      SidesIntro(m, other);
      ClosingIntro(passive, extra);
    }

    /** Unlinks and frees the front order of side `m`. */
    method PopFront(l: PriceLevel, passive: Order, m: LevelMap, ghost other: LevelMap, ghost extra: set<Order>)
      requires Closing(passive, extra) && Pair(m, other) && m.levels != map[] && l == m.Begin() && passive in m.members
      requires passive.price == l.price && l.price in m.queues && l.price in m.levels && m.queues[l.price] != [] && m.queues[l.price][0] == passive
      modifies `orderMap, pool, pool.freeList, m`members, m`queues, m`levels
      modifies m.nodes`head, m.nodes`tail, m.nodes`queue, m.nodes`totalQty, m.nodes`orderCount
      modifies m.members`prev, m.members`next
      ensures Core(extra) && orderMap == old(orderMap) - {passive.id} && pool.slots == old(pool.slots)
      ensures m.members == old(m.members) - {passive}
      ensures old(m.Flat()) != [] && m.Flat() == old(m.Flat())[1..]
      ensures other.Flat() == old(other.Flat()) && other.Begin() == old(other.Begin())
    {
      hide *;
      ClosingParts(passive, extra);
      SidesApart(m, other);
      m.FlatAfterPop();
      Purge(passive, m, other, 0, extra);
    }

    /** Frees a live order that is not in the book. */
    method Discard(o: Order)
      requires Core({o})
      modifies pool, pool.freeList
      ensures Core({}) && pool.slots == old(pool.slots)
    {
      hide *;
      CoreParts({o});
      AccountedParts(Members(), {o});
      pool.Deallocate(o);
      AccountedIntro(Members(), {});
      CoreIntro({});
    }

    /** Updates the quantity and state of a live order that is not in the book. */
    method Update(o: Order, remaining: u64, state: OrderState)
      requires Core({o})
      modifies o`remaining, o`state
      ensures Core({o}) && o.remaining == remaining && o.state == state
      ensures bids.Flat() == old(bids.Flat()) && asks.Flat() == old(asks.Flat())
    {
      hide *;
      CoreParts({o});
      SidesApart(bids, asks);
      AccountedParts(Members(), {o});
      o.remaining, o.state := remaining, state;
      bids.Untouched();
      asks.Untouched();
      SidesIntro(bids, asks);
      AccountedIntro(Members(), {o});
      CoreIntro({o});
    }

    lemma PairFlats(m: LevelMap, other: LevelMap)
      requires Pair(m, other)
      ensures (m == bids && other == asks) || (m == asks && other == bids)
    {
    }

    /** The emptiness and the best price of a side, as its priority list tells them. */
    lemma Head(m: LevelMap, other: LevelMap, extra: set<Order>)
      requires Core(extra) && Pair(m, other)
      ensures m.levels == map[] <==> m.Flat() == []
      ensures m.levels != map[] ==> m.Begin() != null && m.Flat()[0].price == m.Begin().price
    {
      SidesApart(m, other);
      hide *;
      m.FlatHead();
    }

    lemma Outside(o: Order, m: LevelMap, other: LevelMap)
      requires Core({o}) && Pair(m, other)
      ensures o !in m.members && o !in other.members && o in pool.slots && m.members <= pool.slots
    {
      CoreParts({o});
      SidesApart(m, other);
    }
  }
}
