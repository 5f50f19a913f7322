/** The order object and the fixed-size pool its instances live in. */
module ObjectPool {
  import opened Types

  /** An order slot. `prev` and `next` are the links of the price-level queue. */
  class Order {
    var id: u64
    var price: int
    var qty: u64
    var remaining: u64
    var side: Side
    var typ: OrderType
    var state: OrderState
    var timestamp: u64
    var prev: Order?
    var next: Order?

    constructor () {
      id, price, qty, remaining, timestamp := 0, 0, 0, 0, 0;
      side, typ, state := Buy, Limit, New;
      prev, next := null, null;
    }

    /** What placement-new leaves in the slot. */
    method Construct()
      modifies this
      ensures Value() == Entry(0, 0, 0, 0, Buy, Limit, New) && timestamp == 0 && prev == null && next == null
    {
      id, price, qty, remaining, timestamp := 0, 0, 0, 0, 0;
      side, typ, state := Buy, Limit, New;
      prev, next := null, null;
    }

    /** `*this = value` */
    method Assign(e: Entry)
      modifies `id, `price, `qty, `remaining, `side, `typ, `state
      ensures Value() == e
    {
      id, price, qty, remaining, side, typ, state := e.id, e.price, e.qty, e.remaining, e.side, e.typ, e.state;
    }

    /** The same with a timestamp; the links stay. */
    method Receive(e: Entry, now: u64)
      modifies `id, `price, `qty, `remaining, `side, `typ, `state, `timestamp
      ensures Value() == e && timestamp == now
    {
      Assign(e);
      timestamp := now;
    }

    function Value(): Entry
      reads `id, `price, `qty, `remaining, `side, `typ, `state
    {
      Entry(id, price, qty, remaining, side, typ, state)
    }
  }

  class Pool {
    const capacity: nat
    const freeList: array<Order>
    var freeIndex: nat
    ghost var slots: set<Order>
    ghost var live: set<Order>

    /** The suffix of the free list lists every slot that is not live, once each. */
    ghost predicate Valid()
      reads this, freeList
    {
      && freeList.Length == capacity
      && freeIndex <= capacity
      && live <= slots
      && |live| == freeIndex
      && |slots| == capacity
      && (forall i :: freeIndex <= i < capacity ==> freeList[i] in slots && freeList[i] !in live)
      && (forall i, j :: freeIndex <= i < j < capacity ==> freeList[i] != freeList[j])
      && (forall o :: o in slots && o !in live ==> exists i :: freeIndex <= i < capacity && freeList[i] == o)
    }

    constructor (capacity: nat)
      ensures Valid() && fresh(this) && fresh(freeList) && fresh(slots)
      ensures this.capacity == capacity && live == {}
    {
      this.capacity := capacity;
      freeIndex := 0;
      slots, live := {}, {};
      var o := new Order();
      var list := new Order[capacity](_ => o);
      freeList := list;
      new;
      var i := 0;
      while i < capacity
        invariant 0 <= i <= capacity && freeIndex == 0 && live == {}
        invariant fresh(slots) && |slots| == i
        invariant forall j :: 0 <= j < i ==> freeList[j] in slots
        invariant forall j, k :: 0 <= j < k < i ==> freeList[j] != freeList[k]
        invariant forall s :: s in slots ==> exists j :: 0 <= j < i && freeList[j] == s
      {
        var slot := new Order();
        label before:
        freeList[i] := slot;
        slots := slots + {slot};
        assert forall j :: 0 <= j < i ==> freeList[j] == old@before(freeList[j]);
        assert freeList[i] == slot;
        i := i + 1;
      }
    }

    /** Hands out the next slot of the free list, which is not live, freshly constructed; fails exactly when every slot is
        live. */
    method Allocate() returns (o: Order?)
      requires Valid()
      modifies this, slots - live
      ensures Valid() && slots == old(slots)
      ensures o != null ==> old(freeIndex) < freeList.Length && o == freeList[old(freeIndex)]
      ensures o == null <==> old(freeIndex) == capacity
      ensures o == null ==> live == old(live) && freeIndex == old(freeIndex)
      ensures o != null ==> o in slots && o !in old(live) && live == old(live) + {o} && freeIndex == old(freeIndex) + 1
      ensures o != null ==> o.Value() == Entry(0, 0, 0, 0, Buy, Limit, New) && o.prev == null && o.next == null
    {
      if freeIndex >= capacity {
        return null;
      }
      o := freeList[freeIndex];
      freeIndex := freeIndex + 1;
      o.Construct();
      live := live + {o};
    }

    /** Returns a live slot to the pool, as the next one to hand out. */
    method Deallocate(p: Order?)
      requires Valid()
      requires p != null ==> p in live
      modifies this, freeList
      ensures Valid() && slots == old(slots)
      ensures p == null ==> live == old(live) && freeIndex == old(freeIndex)
      ensures p != null ==> live == old(live) - {p} && freeIndex == old(freeIndex) - 1
      ensures p == null ==> freeList[..] == old(freeList[..])
      ensures p != null ==> freeList[..] == old(freeList[..])[freeIndex := p]
    {
      if p == null {
        return;
      }
      if freeIndex > 0 {
        label before:
        freeIndex := freeIndex - 1;
        freeList[freeIndex] := p;
        live := live - {p};
        assert freeList[freeIndex] == p;
        assert forall i :: freeIndex < i < capacity ==> freeList[i] == old@before(freeList[i]);
      }
    }

    function Used(): (n: nat)
      requires Valid()
      reads this, freeList
      ensures n == |live|
    {
      freeIndex
    }

    function Available(): (n: nat)
      requires Valid()
      reads this, freeList
      ensures n == |slots - live|
    {
      assert |slots - live| == |slots| - |live| by {
        assert slots == live + (slots - live);
      }
      capacity - freeIndex
    }
  }
}
