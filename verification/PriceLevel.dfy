/** One price level: an intrusive FIFO threaded through the orders, with running totals. */
module PriceLevels {
  import opened Types
  import opened Sums
  import opened ObjectPool

  ghost predicate AreQuantities(q: seq<Order>, r: seq<int>)
    reads q`remaining
  {
    |r| == |q| && forall i :: 0 <= i < |q| ==> r[i] == q[i].remaining
  }

  lemma QuantitiesExist(q: seq<Order>)
    ensures exists r :: AreQuantities(q, r)
  {
    if q == [] {
      assert AreQuantities(q, []);
    } else {
      QuantitiesExist(q[1..]);
      var r :| AreQuantities(q[1..], r);
      assert AreQuantities(q, [q[0].remaining] + r);
    }
  }

  /** The remaining quantities of a queue. (Reads that one field, so that other updates leave it alone.) */
  ghost function Quantities(q: seq<Order>): (r: seq<int>)
    reads q`remaining
    ensures |r| == |q| && forall i :: 0 <= i < |q| ==> r[i] == q[i].remaining
  {
    QuantitiesExist(q);
    var r :| AreQuantities(q, r);
    r
  }

  ghost predicate AreValues(q: seq<Order>, r: seq<Entry>)
    reads q`id, q`price, q`qty, q`remaining, q`side, q`typ, q`state
  {
    |r| == |q| && forall i :: 0 <= i < |q| ==> r[i] == q[i].Value()
  }

  lemma ValuesExist(q: seq<Order>)
    ensures exists r :: AreValues(q, r)
  {
    if q == [] {
      assert AreValues(q, []);
    } else {
      ValuesExist(q[1..]);
      var r :| AreValues(q[1..], r);
      assert AreValues(q, [q[0].Value()] + r);
    }
  }

  /** The values of a queue's orders. (Reads no link, so that relinking leaves it alone.) */
  ghost function Values(q: seq<Order>): (r: seq<Entry>)
    reads q`id, q`price, q`qty, q`remaining, q`side, q`typ, q`state
    ensures |r| == |q| && forall i :: 0 <= i < |q| ==> r[i] == q[i].Value()
  {
    ValuesExist(q);
    var r :| AreValues(q, r);
    r
  }

  lemma TotalWithout(q: seq<Order>, k: nat)
    requires k < |q|
    ensures Sum(Quantities(q[..k] + q[k+1..])) == Sum(Quantities(q)) - q[k].remaining
  {
    SumRemoveAt(Quantities(q), k);
    assert Quantities(q[..k] + q[k+1..]) == Quantities(q)[..k] + Quantities(q)[k+1..];
  }

  lemma AfterRemoval<T>(q: seq<T>, k: nat)
    requires k < |q|
    ensures var r := q[..k] + q[k+1..];
            |r| == |q| - 1 && forall i :: 0 <= i < |r| ==> r[i] == q[if i < k then i else i + 1]
  {
  }

  class PriceLevel {
    ghost const side: Side      // the map the level was created in
    var price: int
    var totalQty: u64
    var orderCount: u32
    var head: Order?
    var tail: Order?
    ghost var queue: seq<Order> // front first

    ghost predicate Linked()
      reads `head, `tail, `queue, queue`prev, queue`next
    {
      && head == (if queue == [] then null else queue[0])
      && tail == (if queue == [] then null else queue[|queue|-1])
      && (forall i {:trigger queue[i].prev} :: 0 <= i < |queue| ==>
            queue[i].prev == if i == 0 then null else queue[i-1])
      && (forall i {:trigger queue[i].next} :: 0 <= i < |queue| ==>
            queue[i].next == if i == |queue| - 1 then null else queue[i+1])
      && (forall i, j :: 0 <= i < j < |queue| ==> queue[i] != queue[j])
    }

    ghost predicate Valid()
      reads `head, `tail, `queue, `totalQty, `orderCount, queue`prev, queue`next, queue`remaining
    {
      && Linked()
      && orderCount == |queue| % U32
      && totalQty == Sum(Quantities(queue)) % U64
    }

    lemma QueueDistinct()
      requires Valid()
      ensures forall i, j :: 0 <= i < j < |queue| ==> queue[i] != queue[j]
    {
    }

    constructor (ghost side: Side)
      ensures Valid() && queue == [] && this.side == side
    {
      this.side := side;
      price, totalQty, orderCount := 0, 0, 0;
      head, tail := null, null;
      queue := [];
    }

    /** Moves the running quantity, modulo its width. */
    method AddQuantity(d: int, ghost total: int)
      requires totalQty == total % U64
      modifies `totalQty
      ensures totalQty == (total + d) % U64
    {
      CounterStep64(total, d);
      totalQty := (totalQty + d) % U64;
    }

    /** Moves the running count, modulo its width. */
    method AddCount(n: int, ghost count: int)
      requires orderCount == count % U32
      modifies `orderCount
      ensures orderCount == (count + n) % U32
    {
      CounterStep32(count, n);
      orderCount := (orderCount + n) % U32;
    }

    /** The pointer half of `PushBack`. */
    method Link(o: Order)
      requires Linked() && o !in queue
      modifies `head, `tail, `queue, queue`next, o`prev, o`next
      ensures Linked() && queue == old(queue) + [o]
    {
      o.prev := tail;
      o.next := null;
      if tail != null {
        tail.next := o;
      } else {
        head := o;
      }
      tail := o;
      queue := queue + [o];
    }

    /** Appends `o` to the back of the queue. */
    method PushBack(o: Order)
      requires Valid() && o !in queue
      modifies `head, `tail, `queue, `totalQty, `orderCount, queue`next, o`prev, o`next
      ensures Valid() && queue == old(queue) + [o]
    {
      ghost var before := Quantities(queue);
      Link(o);
      AddQuantity(o.remaining, Sum(before));
      AddCount(1, |before|);
      assert Quantities(queue) == before + [o.remaining];
      SumPush(before, o.remaining);
    }

    /** The pointer half of `Remove`, with the position of `o` known. */
    method Unlink(o: Order, ghost k: nat)
      requires Linked() && k < |queue| && queue[k] == o
      modifies `head, `tail, `queue, queue`prev, queue`next
      ensures Linked() && queue == old(queue)[..k] + old(queue)[k+1..] && o.prev == null && o.next == null
    {
      if o.prev != null {
        o.prev.next := o.next;
      } else {
        head := o.next;
      }
      if o.next != null {
        o.next.prev := o.prev;
      } else {
        tail := o.prev;
      }
      o.prev, o.next := null, null;
      ghost var was := queue;
      queue := was[..k] + was[k+1..];
      AfterRemoval(was, k);
    }

    /** Removes `o`, which stands at position `k` of the queue. */
    method Remove(o: Order, ghost k: nat)
      requires Valid() && k < |queue| && queue[k] == o
      modifies `head, `tail, `queue, `totalQty, `orderCount, queue`prev, queue`next
      ensures Valid() && queue == old(queue)[..k] + old(queue)[k+1..] && o.prev == null && o.next == null
    {
      ghost var total, count := Sum(Quantities(queue)), |queue|;
      TotalWithout(queue, k);
      Unlink(o, k);
      AddQuantity(0 - o.remaining, total);
      AddCount(0 - 1, count);
    }

    /** Takes `fill` off the front order and off the running total. */
    method FillHead(fill: u64)
      requires Valid() && queue != [] && fill <= queue[0].remaining
      modifies `totalQty, {queue[0]}`remaining
      ensures Valid() && queue[0].remaining == old(queue[0].remaining) - fill
    {
      ghost var before := Quantities(queue);
      head.remaining := head.remaining - fill;
      AddQuantity(0 - fill, Sum(before));
      assert Quantities(queue) == before[0 := head.remaining];
      SumUpdate(before, 0, head.remaining);
    }

    lemma ValidLinked()
      requires Valid()
      ensures Linked()
    {
    }

    predicate Empty()
      reads this, queue`prev, queue`next
      requires Linked()
      ensures Empty() <==> queue == []
    {
      head == null
    }
  }
}
