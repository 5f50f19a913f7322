/** Laws of the abstract book: what a match allocates, and what cancel, add and modify leave in place. */
module BookLaws {
  import opened Types
  import opened BookSpec

  function Quantity(l: seq<Entry>): nat {
    if l == [] then 0 else l[0].remaining + Quantity(l[1..])
  }

  function Traded(ts: seq<Trade>): nat {
    if ts == [] then 0 else ts[0].qty + Traded(ts[1..])
  }

  /** Best price first. */
  ghost predicate Sorted(s: Side, l: seq<Entry>) {
    forall i, j :: 0 <= i < j < |l| ==> !Better(s, l[j].price, l[i].price)
  }

  // ---------------------------------------------------------------------------------------------------
  // The match as an allocation

  /** The taker still has something to fill when it gets to order `i`, and may trade at its price. */
  ghost predicate Reached(limit: int, rem: u64, s: Side, l: seq<Entry>, i: nat)
    requires i < |l|
  {
    Quantity(l[..i]) < rem && !Better(s, limit, l[i].price)
  }

  lemma QuantityTake(l: seq<Entry>, i: nat)
    requires 0 < i <= |l|
    ensures Quantity(l[..i]) == l[0].remaining + Quantity(l[1..][..i-1])
  {
    assert l[..i][1..] == l[1..][..i-1];
  }

  /** `ts` are exactly the trades with the orders reached, in list order, each for the smaller of the order's quantity and
      what the orders before it leave over. */
  ghost predicate Allocated(id: u64, limit: int, rem: u64, s: Side, l: seq<Entry>, ts: seq<Trade>) {
    && |ts| <= |l|
    && (forall i :: 0 <= i < |l| ==> (i < |ts| <==> Reached(limit, rem, s, l, i)))
    && (forall i :: 0 <= i < |ts| ==> Quantity(l[..i]) < rem)
    && (forall i :: 0 <= i < |ts| ==>
          ts[i] == Trade(id, l[i].id, l[i].price, Min(l[i].remaining, rem - Quantity(l[..i]))))
  }

  lemma AllocatesAt(id: u64, limit: int, rem: u64, s: Side, l: seq<Entry>, ts: seq<Trade>, i: nat)
    requires Crosses(limit, rem, s, l) && rem >= l[0].remaining && 0 < i < |l|
    requires Allocated(id, limit, rem - l[0].remaining, s, l[1..], ts)
    ensures i <= |ts| <==> Reached(limit, rem, s, l, i)
    ensures i <= |ts| ==>
              && Quantity(l[..i]) < rem
              && ts[i-1] == Trade(id, l[i].id, l[i].price, Min(l[i].remaining, rem - Quantity(l[..i])))
  {
    QuantityTake(l, i);
    hide Quantity;
    assert l[1..][i-1] == l[i];
    assert i - 1 < |ts| <==> Reached(limit, rem - l[0].remaining, s, l[1..], i - 1);
  }

  lemma AllocatesMore(id: u64, limit: int, rem: u64, s: Side, l: seq<Entry>, ts: seq<Trade>)
    requires Crosses(limit, rem, s, l) && rem >= l[0].remaining
    requires Allocated(id, limit, rem - l[0].remaining, s, l[1..], ts)
    ensures Allocated(id, limit, rem, s, l, [Trade(id, l[0].id, l[0].price, l[0].remaining)] + ts)
  {
    assert l[..0] == [];
    forall i | 0 < i < |l|
      ensures i <= |ts| <==> Reached(limit, rem, s, l, i)
      ensures i <= |ts| ==>
                && Quantity(l[..i]) < rem
                && ts[i-1] == Trade(id, l[i].id, l[i].price, Min(l[i].remaining, rem - Quantity(l[..i])))
    {
      AllocatesAt(id, limit, rem, s, l, ts, i);
    }
  }

  /** Price-time priority in closed form. */
  lemma {:induction false} GreedyAllocates(id: u64, limit: int, rem: u64, s: Side, l: seq<Entry>)
    requires Sorted(s, l)
    ensures Allocated(id, limit, rem, s, l, Greedy(id, limit, rem, s, l).trades)
    decreases |l|
  {
    if !Crosses(limit, rem, s, l) {
      forall i | 0 <= i < |l|
        ensures !Reached(limit, rem, s, l, i)
      {
        assert i > 0 ==> !Better(s, l[i].price, l[0].price);
      }
    } else if rem < l[0].remaining {
      assert l[..0] == [];
      forall i | 0 < i < |l|
        ensures !Reached(limit, rem, s, l, i)
      {
        QuantityTake(l, i);
      }
    } else {
      hide Allocated, Reached;
      GreedyAllocates(id, limit, rem - l[0].remaining, s, l[1..]);
      AllocatesMore(id, limit, rem, s, l, Greedy(id, limit, rem - l[0].remaining, s, l[1..]).trades);
    }
  }

  /** The taker's quantity splits exactly into its trades and what is left; the resting side loses exactly
      the traded total. */
  lemma {:induction false} GreedyConserves(id: u64, limit: int, rem: u64, s: Side, l: seq<Entry>)
    ensures var r := Greedy(id, limit, rem, s, l);
            rem == r.left + Traded(r.trades) && Quantity(l) == Quantity(r.rest) + Traded(r.trades)
    decreases |l|
  {
    var r := Greedy(id, limit, rem, s, l);
    if Crosses(limit, rem, s, l) {
      if rem >= l[0].remaining {
        GreedyConserves(id, limit, rem - l[0].remaining, s, l[1..]);
        assert r.trades[1..] == Greedy(id, limit, rem - l[0].remaining, s, l[1..]).trades;
      } else {
        assert r.trades[1..] == [] && r.rest[1..] == l[1..];
      }
    }
  }

  /** What is left of the taker crosses nothing that is left of the side. */
  lemma {:induction false} GreedyExhausts(id: u64, limit: int, rem: u64, s: Side, l: seq<Entry>)
    ensures var r := Greedy(id, limit, rem, s, l);
            !Crosses(limit, r.left, s, r.rest) && (r.left > 0 ==> r.rest == [] || Better(s, limit, r.rest[0].price))
    decreases |l|
  {
    if Crosses(limit, rem, s, l) && rem >= l[0].remaining {
      GreedyExhausts(id, limit, rem - l[0].remaining, s, l[1..]);
    }
  }

  /** The front orders of the side are gone, one trade each; only the order then at its front may have been
      filled in part, by the last trade. */
  lemma {:induction false} GreedyLeaves(id: u64, limit: int, rem: u64, s: Side, l: seq<Entry>) returns (n: nat)
    ensures n <= |l|
    ensures var r := Greedy(id, limit, rem, s, l);
            || (|r.trades| == n && r.rest == l[n..])
            || (|r.trades| == n + 1 && n < |l| && r.left == 0 && r.rest != [] && 0 < r.rest[0].remaining < l[n].remaining
                && r.rest == [l[n].(remaining := r.rest[0].remaining, state := PartFill)] + l[n+1..])
    decreases |l|
  {
    n := 0;
    if Crosses(limit, rem, s, l) && rem >= l[0].remaining {
      GreedyStep([], id, limit, rem, s, l);
      ResumeNothing(Greedy(id, limit, rem, s, l));
      hide Greedy;
      var n' := GreedyLeaves(id, limit, rem - l[0].remaining, s, l[1..]);
      n := n' + 1;
      assert l[n..] == l[1..][n'..];
      assert n < |l| ==> l[n+1..] == l[1..][n'+1..];
    } else {
      assert l[0..] == l;
    }
  }

  /** Every trade is at the passive order's own price, within the taker's limit and never better than the
      one before; with no zero-quantity order resting, every trade has a positive quantity. */
  lemma {:induction false} TradeQuality(id: u64, limit: int, rem: u64, s: Side, l: seq<Entry>)
    requires Sorted(s, l)
    ensures var ts := Greedy(id, limit, rem, s, l).trades;
            && |ts| <= |l|
            && (forall i :: 0 <= i < |ts| ==>
                  ts[i].passiveId == l[i].id && ts[i].price == l[i].price && !Better(s, limit, ts[i].price))
            && (forall i, j :: 0 <= i < j < |ts| ==> !Better(s, ts[j].price, ts[i].price))
            && (forall i :: 0 <= i < |ts| - 1 ==> ts[i].qty == l[i].remaining)
            && ((forall i :: 0 <= i < |l| ==> l[i].remaining > 0) ==> forall i :: 0 <= i < |ts| ==> ts[i].qty > 0)
  {
    GreedyAllocates(id, limit, rem, s, l);
    var ts := Greedy(id, limit, rem, s, l).trades;
    forall i | 0 <= i < |ts|
      ensures ts[i].price == l[i].price && !Better(s, limit, ts[i].price)
      ensures i < |ts| - 1 ==> ts[i].qty == l[i].remaining
    {
      assert Reached(limit, rem, s, l, i);
      if i < |ts| - 1 {
        assert Reached(limit, rem, s, l, i + 1);
        QuantityUpTo(l, i);
      }
    }
  }

  lemma {:induction false} QuantityConcat(a: seq<Entry>, b: seq<Entry>)
    ensures Quantity(a + b) == Quantity(a) + Quantity(b)
  {
    if a == [] {
      assert a + b == b;
    } else {
      QuantityConcat(a[1..], b);
      assert (a + b)[1..] == a[1..] + b;
    }
  }

  lemma QuantityUpTo(l: seq<Entry>, i: nat)
    requires i < |l|
    ensures Quantity(l[..i+1]) == Quantity(l[..i]) + l[i].remaining
  {
    assert l[..i+1] == l[..i] + [l[i]];
    QuantityConcat(l[..i], [l[i]]);
    assert Quantity([l[i]]) == l[i].remaining + Quantity([l[i]][1..]);
  }

  /** The quantity on offer within a limit: that of the front orders of the side, up to the first price out of it. */
  function Available(limit: int, s: Side, l: seq<Entry>): nat {
    if l == [] || Better(s, limit, l[0].price) then 0 else l[0].remaining + Available(limit, s, l[1..])
  }

  /** A match leaves of the taker exactly what exceeds the quantity on offer. */
  lemma {:induction false} GreedyLeft(id: u64, limit: int, rem: u64, s: Side, l: seq<Entry>)
    ensures Greedy(id, limit, rem, s, l).left == Max(0, rem - Available(limit, s, l))
    decreases |l|
  {
    if Crosses(limit, rem, s, l) && rem >= l[0].remaining {
      GreedyLeft(id, limit, rem - l[0].remaining, s, l[1..]);
    }
  }

  /** Which resting orders a match fills: those it reaches with enough left for all of them. */
  lemma FilledExactly(id: u64, limit: int, rem: u64, s: Side, l: seq<Entry>, i: nat)
    requires Sorted(s, l) && i < |l|
    ensures var ts := Greedy(id, limit, rem, s, l).trades;
            && (i < |ts| <==> Reached(limit, rem, s, l, i))
            && (i < |ts| && ts[i].qty == l[i].remaining <==>
                  Reached(limit, rem, s, l, i) && Quantity(l[..i]) + l[i].remaining <= rem)
  {
    GreedyAllocates(id, limit, rem, s, l);
  }

  /** What a caller can check: the quantity on offer takes the whole order, or its id rests neither on its own side nor, out
      of its limit, on the other one. (Within its limit it would be taken away.) */
  lemma StaysDistinctExactly(b: Book, e: Entry)
    requires Sorted(Opposite(e.side), b.On(Opposite(e.side)))
    ensures var s := Opposite(e.side);
            StaysDistinct(b, e) <==>
            || e.remaining <= Available(e.price, s, b.On(s))
            || (!HasId(b.On(e.side), e.id) && forall x :: x in b.On(s) && x.id == e.id ==> !Better(s, e.price, x.price))
  {
    var s, r := Opposite(e.side), Matched(b, e);
    var l := b.On(s);
    GreedyLeft(e.id, e.price, e.remaining, s, l);
    if r.left > 0 {
      var n := GreedyLeaves(e.id, e.price, e.remaining, s, l);
      GreedyExhausts(e.id, e.price, e.remaining, s, l);
      TradeQuality(e.id, e.price, e.remaining, s, l);
      forall i | 0 <= i < |l|
        ensures i < n <==> !Better(s, e.price, l[i].price)
      {
        if i >= n {
          assert l[n] == r.rest[0] && !Better(s, l[i].price, l[n].price);
        } else {
          assert r.trades[i].price == l[i].price;
        }
      }
      assert Swept(b, e).On(s) == l[n..] && Swept(b, e).On(e.side) == b.On(e.side);
      RestingOn(Swept(b, e), e.side, e.id);
      SuffixHasId(l, n, e.id);
    }
  }

  lemma RestingOn(b: Book, s: Side, id: int)
    ensures Resting(b, id) <==> HasId(b.On(s), id) || HasId(b.On(Opposite(s)), id)
  {
  }

  lemma SuffixHasId(l: seq<Entry>, n: nat, id: int)
    requires n <= |l|
    ensures HasId(l[n..], id) <==> exists i :: n <= i < |l| && l[i].id == id
  {
    if i :| n <= i < |l| && l[i].id == id {
      assert l[n..][i - n].id == id;
    }
  }

  lemma {:induction false} InsertQuantity(s: Side, l: seq<Entry>, e: Entry)
    ensures Quantity(Insert(s, l, e)) == Quantity(l) + e.remaining && |Insert(s, l, e)| == |l| + 1
  {
    if l == [] || Better(s, e.price, l[0].price) {
      assert ([e] + l)[1..] == l;
    } else {
      InsertQuantity(s, l[1..], e);
      assert Insert(s, l, e)[1..] == Insert(s, l[1..], e);
    }
  }

  /** What is bid less what is asked. */
  function Net(b: Book): int {
    Quantity(b.bids) - Quantity(b.asks)
  }

  /** Every unit of an incoming order moves the net quantity by one, whether it trades or rests. */
  lemma SubmitMovesNet(b: Book, e: Entry)
    ensures Net(Submit(b, e).book) == if e.side.Buy? then Net(b) + e.remaining else Net(b) - e.remaining
  {
    var s, r := Opposite(e.side), Matched(b, e);
    GreedyConserves(e.id, e.price, e.remaining, s, b.On(s));
    InsertQuantity(e.side, b.On(e.side), e.(remaining := r.left, state := PartFill));
  }

  // ---------------------------------------------------------------------------------------------------
  // Insertion and removal

  /** Where `Insert` puts an order: behind everything at least as good, ahead of everything worse. */
  lemma {:induction false} InsertPlace(s: Side, l: seq<Entry>, e: Entry) returns (k: nat)
    requires Sorted(s, l)
    ensures k <= |l| && Insert(s, l, e) == l[..k] + [e] + l[k..]
    ensures forall i :: 0 <= i < k ==> !Better(s, e.price, l[i].price)
    ensures forall i :: k <= i < |l| ==> Better(s, e.price, l[i].price)
  {
    if l == [] || Better(s, e.price, l[0].price) {
      k := 0;
      assert l[..0] + [e] + l[0..] == [e] + l;
      forall i | 0 < i < |l|
        ensures Better(s, e.price, l[i].price)
      {
        assert !Better(s, l[i].price, l[0].price);
      }
    } else {
      var k' := InsertPlace(s, l[1..], e);
      k := k' + 1;
      assert l[..k] + [e] + l[k..] == [l[0]] + (l[1..][..k'] + [e] + l[1..][k'..]);
    }
  }

  lemma {:induction false} InsertElements(s: Side, l: seq<Entry>, e: Entry, x: Entry)
    ensures x in Insert(s, l, e) <==> x == e || x in l
  {
    if !(l == [] || Better(s, e.price, l[0].price)) {
      InsertElements(s, l[1..], e, x);
      assert l == [l[0]] + l[1..];
    }
  }

  lemma {:induction false} WithoutElements(l: seq<Entry>, id: int, x: Entry)
    ensures x in Without(l, id) <==> x in l && x.id != id
  {
    if l != [] {
      WithoutElements(l[1..], id, x);
      assert l == [l[0]] + l[1..];
    }
  }

  lemma {:induction false} WithoutInsert(s: Side, l: seq<Entry>, e: Entry)
    ensures Without(Insert(s, l, e), e.id) == Without(l, e.id)
  {
    if l == [] || Better(s, e.price, l[0].price) {
      assert ([e] + l)[1..] == l;
    } else {
      WithoutInsert(s, l[1..], e);
      assert Insert(s, l, e)[1..] == Insert(s, l[1..], e);
    }
  }

  /** `e` stands on its own side behind every order at its price or a better one, and ahead of every worse one: bids fall,
      asks rise. The other side is as it was. */
  ghost predicate StandsAt(b: Book, b': Book, e: Entry, k: nat) {
    if e.side == Buy then
      && b'.asks == b.asks && k <= |b.bids| && b'.bids == b.bids[..k] + [e] + b.bids[k..]
      && (forall i :: 0 <= i < k ==> b.bids[i].price >= e.price)
      && (forall i :: k <= i < |b.bids| ==> b.bids[i].price < e.price)
    else
      && b'.bids == b.bids && k <= |b.asks| && b'.asks == b.asks[..k] + [e] + b.asks[k..]
      && (forall i :: 0 <= i < k ==> b.asks[i].price <= e.price)
      && (forall i :: k <= i < |b.asks| ==> b.asks[i].price > e.price)
  }

  /** `add` rests the order untouched, New and with its whole quantity; a full pool leaves the book as it was. */
  lemma AddPlaces(b: Book, id: u64, side: Side, price: int, qty: u64, capacity: nat) returns (k: nat)
    requires Sorted(Buy, b.bids) && Sorted(Sell, b.asks)
    ensures |b.bids| + |b.asks| >= capacity ==> Add(b, id, side, price, qty, capacity) == b
    ensures |b.bids| + |b.asks| < capacity ==>
              StandsAt(b, Add(b, id, side, price, qty, capacity), Entry(id, price, qty, qty, side, Limit, New), k)
  {
    k := InsertPlace(side, b.On(side), Entry(id, price, qty, qty, side, Limit, New));
  }

  /** A match trades with the other side only; what it has left of the order rests on the order's own side, and if that is
      nothing the side is as it was. */
  lemma SubmitPlaces(b: Book, e: Entry) returns (k: nat)
    requires Sorted(Buy, b.bids) && Sorted(Sell, b.asks)
    ensures var s, l := (if e.side == Buy then Sell else Buy), (if e.side == Buy then b.asks else b.bids);
            var r := Greedy(e.id, e.price, e.remaining, s, l);
            var out, swept := Submit(b, e), (if e.side == Buy then Book(b.bids, r.rest) else Book(r.rest, b.asks));
            && out.trades == r.trades
            && (r.left == 0 ==> out.book == swept)
            && (r.left > 0 ==> StandsAt(swept, out.book, e.(remaining := r.left, state := PartFill), k))
  {
    hide Greedy;
    k := InsertPlace(e.side, b.On(e.side), e.(remaining := Matched(b, e).left, state := PartFill));
  }

  /** Adding a fresh order and cancelling it restores the book. */
  lemma CancelUndoesAdd(b: Book, e: Entry)
    requires !Resting(b, e.id)
    ensures Remove(Place(b, e), e.id) == b
  {
    WithoutInsert(e.side, b.On(e.side), e);
    RemoveAbsent(b, e.id);
  }

  /** `modify` leaves every other order where it was, on both sides, and puts the modified one with its new
      quantity behind all orders at its price. */
  lemma ModifyMovesOne(b: Book, id: u64, qty: u64, capacity: nat) returns (k: nat)
    requires Resting(b, id) && b.Count() <= capacity && Sorted(Buy, b.bids) && Sorted(Sell, b.asks)
    ensures var was := Find(b, id);
            var b' := Modify(b, id, qty, capacity);
            var l, l' := Without(b.On(was.side), id), b'.On(was.side);
            && b'.On(Opposite(was.side)) == Without(b.On(Opposite(was.side)), id)
            && k <= |l| && l' == l[..k] + [Entry(id, was.price, qty, qty, was.side, Limit, New)] + l[k..]
            && (forall i :: 0 <= i < k ==> !Better(was.side, was.price, l[i].price))
            && (forall i :: k <= i < |l| ==> Better(was.side, was.price, l[i].price))
  {
    var e := Find(b, id);
    RemoveShrinks(b, id);
    WithoutSorted(Buy, b.bids, id);
    WithoutSorted(Sell, b.asks, id);
    k := InsertPlace(e.side, Remove(b, id).On(e.side), Entry(id, e.price, qty, qty, e.side, Limit, New));
  }

  lemma {:induction false} WithoutShorter(l: seq<Entry>, id: int)
    ensures |Without(l, id)| <= |l| && (HasId(l, id) ==> |Without(l, id)| < |l|)
  {
    if l != [] {
      WithoutShorter(l[1..], id);
      if HasId(l, id) && l[0].id != id {
        var i :| 0 <= i < |l| && l[i].id == id;
        assert l[1..][i-1].id == id;
      }
    }
  }

  lemma RemoveShrinks(b: Book, id: int)
    requires Resting(b, id)
    ensures Remove(b, id).Count() < b.Count()
  {
    WithoutShorter(b.bids, id);
    WithoutShorter(b.asks, id);
  }

  lemma {:induction false} WithoutSorted(s: Side, l: seq<Entry>, id: int)
    requires Sorted(s, l)
    ensures Sorted(s, Without(l, id))
  {
    if l != [] {
      WithoutSorted(s, l[1..], id);
      forall x | x in Without(l[1..], id)
        ensures !Better(s, x.price, l[0].price)
      {
        WithoutElements(l[1..], id, x);
      }
    }
  }
}
