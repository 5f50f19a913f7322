/** Whole runs of the exchange from an empty book: price-time priority, distinct ids, the quantity ledger and
    the uncrossed book. */
module BookRuns {
  import opened Types
  import opened BookSpec
  import opened BookLaws

  datatype Op =
    | Submit(e: Entry)
    | Add(id: u64, side: Side, price: int, qty: u64)
    | Cancel(id: u64)
    | Modify(id: u64, qty: u64)

  /** A run so far: the book, the quantities that came in, traded and were cancelled, and for each id the
      moment its order last arrived. */
  datatype Run = Run(book: Book, submitted: nat, traded: nat, cancelled: nat, stamp: map<int, nat>, now: nat)

  const START := Run(EMPTY, 0, 0, 0, map[], 0)

  /** The operation brings no id into the book a second time. */
  ghost predicate Legal(b: Book, op: Op, capacity: nat) {
    match op
    case Submit(e) => b.Count() >= capacity || StaysDistinct(b, e)
    case Add(id, _, _, _) => b.Count() >= capacity || !Resting(b, id)
    case Cancel(_) => true
    case Modify(_, _) => true
  }

  ghost function Step(r: Run, op: Op, capacity: nat): Run {
    var later := r.(now := r.now + 1);
    match op
    case Submit(e) =>
      if r.book.Count() >= capacity then later
      else
        var out := BookSpec.Submit(r.book, e);
        later.(book := out.book, submitted := r.submitted + e.remaining, traded := r.traded + Traded(out.trades),
               stamp := if Matched(r.book, e).left > 0 then r.stamp[e.id := r.now] else r.stamp)
    case Add(id, side, price, qty) =>
      if r.book.Count() >= capacity then later
      else
        later.(book := BookSpec.Add(r.book, id, side, price, qty, capacity), submitted := r.submitted + qty,
               stamp := r.stamp[id := r.now])
    case Cancel(id) =>
      if !Resting(r.book, id) then later
      else later.(book := Remove(r.book, id), cancelled := r.cancelled + Find(r.book, id).remaining)
    case Modify(id, qty) =>
      if !Resting(r.book, id) then later
      else
        later.(book := BookSpec.Modify(r.book, id, qty, capacity), submitted := r.submitted + qty,
               cancelled := r.cancelled + Find(r.book, id).remaining, stamp := r.stamp[id := r.now])
  }

  ghost function After(ops: seq<Op>, capacity: nat): Run {
    if ops == [] then START else Step(After(ops[..|ops|-1], capacity), ops[|ops|-1], capacity)
  }

  ghost predicate LegalRun(ops: seq<Op>, capacity: nat) {
    ops != [] ==>
      LegalRun(ops[..|ops|-1], capacity) && Legal(After(ops[..|ops|-1], capacity).book, ops[|ops|-1], capacity)
  }

  // ---------------------------------------------------------------------------------------------------
  // Price-time priority of one side

  /** `x` has priority over `y`: a better price, or the same price and an earlier arrival. */
  ghost predicate Before(s: Side, x: Entry, y: Entry, stamp: map<int, nat>) {
    && x.id in stamp && y.id in stamp && x.id != y.id
    && (Better(s, x.price, y.price) || (x.price == y.price && stamp[x.id] < stamp[y.id]))
  }

  ghost predicate Good(s: Side, x: Entry, stamp: map<int, nat>, now: nat) {
    x.side == s && (x.state.New? || x.state.PartFill?) && x.id in stamp && stamp[x.id] < now
  }

  ghost predicate Prioritised(s: Side, l: seq<Entry>, stamp: map<int, nat>, now: nat) {
    l == [] ||
    (Good(s, l[0], stamp, now) && (forall x :: x in l[1..] ==> Before(s, l[0], x, stamp))
     && Prioritised(s, l[1..], stamp, now))
  }

  /** The same, said of every pair of positions. */
  lemma {:induction false} PriorityOfPairs(s: Side, l: seq<Entry>, stamp: map<int, nat>, now: nat)
    requires Prioritised(s, l, stamp, now)
    ensures forall i, j :: 0 <= i < j < |l| ==> Before(s, l[i], l[j], stamp)
    ensures forall i :: 0 <= i < |l| ==> Good(s, l[i], stamp, now)
    ensures Sorted(s, l)
  {
    if l != [] {
      PriorityOfPairs(s, l[1..], stamp, now);
      forall i, j | 0 <= i < j < |l|
        ensures Before(s, l[i], l[j], stamp)
      {
        if i == 0 {
          assert l[j] in l[1..];
        } else {
          assert l[1..][i-1] == l[i] && l[1..][j-1] == l[j];
        }
      }
    }
  }

  lemma {:induction false} PrioritySuffix(s: Side, l: seq<Entry>, n: nat, stamp: map<int, nat>, now: nat)
    requires Prioritised(s, l, stamp, now) && n <= |l|
    ensures Prioritised(s, l[n..], stamp, now)
  {
    if n > 0 {
      PrioritySuffix(s, l[1..], n - 1, stamp, now);
      assert l[n..] == l[1..][n-1..];
    }
  }

  /** A match keeps the priority order. */
  lemma PriorityAfterGreedy(id: u64, limit: int, rem: u64, s: Side, l: seq<Entry>, stamp: map<int, nat>, now: nat)
    requires Prioritised(s, l, stamp, now)
    ensures Prioritised(s, Greedy(id, limit, rem, s, l).rest, stamp, now)
    ensures forall x :: HasId(Greedy(id, limit, rem, s, l).rest, x) ==> HasId(l, x)
  {
    var r := Greedy(id, limit, rem, s, l);
    var n := GreedyLeaves(id, limit, rem, s, l);
    PrioritySuffix(s, l, n, stamp, now);
    if r.rest != l[n..] {
      assert l[n..][1..] == l[n+1..] && r.rest[1..] == l[n+1..];
    }
    forall x | HasId(r.rest, x)
      ensures HasId(l, x)
    {
      var i :| 0 <= i < |r.rest| && r.rest[i].id == x;
      assert l[n+i].id == x;
    }
  }

  /** Time moves on and other ids get new stamps. */
  lemma {:induction false} PriorityLater(s: Side, l: seq<Entry>, stamp: map<int, nat>, now: nat, stamp': map<int, nat>, now': nat)
    requires Prioritised(s, l, stamp, now) && now <= now'
    requires forall x :: x in l ==> x.id in stamp && x.id in stamp' && stamp'[x.id] == stamp[x.id]
    ensures Prioritised(s, l, stamp', now')
  {
    if l != [] {
      PriorityLater(s, l[1..], stamp, now, stamp', now');
    }
  }

  /** An order that arrives now is inserted in priority order. */
  lemma {:induction false} PriorityAfterInsert(s: Side, l: seq<Entry>, e: Entry, stamp: map<int, nat>, now: nat)
    requires Prioritised(s, l, stamp, now) && e.side == s && (e.state.New? || e.state.PartFill?) && !HasId(l, e.id)
    ensures Prioritised(s, Insert(s, l, e), stamp[e.id := now], now + 1)
  {
    var stamp' := stamp[e.id := now];
    PriorityOfPairs(s, l, stamp, now);
    assert forall x :: x in l ==> x.id != e.id;
    PriorityLater(s, l, stamp, now, stamp', now + 1);
    if l == [] || Better(s, e.price, l[0].price) {
      assert ([e] + l)[1..] == l;
      assert forall x :: x in l ==> Good(s, x, stamp, now) && !Better(s, x.price, l[0].price);
    } else {
      assert forall x :: HasId(l[1..], x) ==> HasId(l, x) by {
        forall x | HasId(l[1..], x) ensures HasId(l, x) {
          var i :| 0 <= i < |l[1..]| && l[1..][i].id == x;
          assert l[i+1].id == x;
        }
      }
      PriorityAfterInsert(s, l[1..], e, stamp, now);
      var l' := Insert(s, l, e);
      assert l'[1..] == Insert(s, l[1..], e);
      forall x | x in l'[1..]
        ensures Before(s, l[0], x, stamp')
      {
        InsertElements(s, l[1..], e, x);
      }
    }
  }

  lemma {:induction false} PriorityAfterWithout(s: Side, l: seq<Entry>, id: int, stamp: map<int, nat>, now: nat)
    requires Prioritised(s, l, stamp, now)
    ensures Prioritised(s, Without(l, id), stamp, now)
  {
    if l != [] {
      PriorityAfterWithout(s, l[1..], id, stamp, now);
      if l[0].id != id {
        assert Without(l, id)[1..] == Without(l[1..], id);
        forall x | x in Without(l, id)[1..]
          ensures Before(s, l[0], x, stamp)
        {
          WithoutElements(l[1..], id, x);
        }
      }
    }
  }

  // ---------------------------------------------------------------------------------------------------
  // The whole book

  ghost predicate BookOk(b: Book, stamp: map<int, nat>, now: nat) {
    && Prioritised(Buy, b.bids, stamp, now) && Prioritised(Sell, b.asks, stamp, now)
    && forall x, y :: x in b.bids && y in b.asks ==> x.id != y.id
  }

  function Total(b: Book): nat {
    Quantity(b.bids) + Quantity(b.asks)
  }

  /** Every unit that came in rests, was cancelled, or met another one in a trade. */
  ghost predicate Balanced(r: Run) {
    r.submitted == Total(r.book) + 2 * r.traded + r.cancelled
  }

  ghost predicate Invariant(r: Run, capacity: nat) {
    BookOk(r.book, r.stamp, r.now) && Balanced(r) && r.book.Count() <= capacity
  }

  lemma NotIn(l: seq<Entry>, id: int)
    ensures !HasId(l, id) <==> forall x :: x in l ==> x.id != id
  {
    if x :| x in l && x.id == id {
      var i :| 0 <= i < |l| && l[i] == x;
      assert l[i].id == id;
    }
  }

  lemma BookLater(b: Book, stamp: map<int, nat>, now: nat, stamp': map<int, nat>, now': nat)
    requires BookOk(b, stamp, now) && now <= now'
    requires forall x :: x in stamp && Resting(b, x) ==> x in stamp' && stamp'[x] == stamp[x]
    ensures BookOk(b, stamp', now')
  {
    PriorityOfPairs(Buy, b.bids, stamp, now);
    PriorityOfPairs(Sell, b.asks, stamp, now);
    forall x | x in b.bids || x in b.asks
      ensures Resting(b, x.id)
    {
      NotIn(b.bids, x.id);
      NotIn(b.asks, x.id);
    }
    PriorityLater(Buy, b.bids, stamp, now, stamp', now');
    PriorityLater(Sell, b.asks, stamp, now, stamp', now');
  }

  lemma PlaceOk(b: Book, e: Entry, stamp: map<int, nat>, now: nat)
    requires BookOk(b, stamp, now) && !Resting(b, e.id) && (e.state.New? || e.state.PartFill?)
    ensures BookOk(Place(b, e), stamp[e.id := now], now + 1)
    ensures Total(Place(b, e)) == Total(b) + e.remaining && Place(b, e).Count() == b.Count() + 1
  {
    var s := e.side;
    BookLater(b, stamp, now, stamp[e.id := now], now + 1);
    PriorityAfterInsert(s, b.On(s), e, stamp, now);
    InsertQuantity(s, b.On(s), e);
    NotIn(b.bids, e.id);
    NotIn(b.asks, e.id);
    forall x
      ensures x in Insert(s, b.On(s), e) <==> x == e || x in b.On(s)
    {
      InsertElements(s, b.On(s), e, x);
    }
  }

  lemma RemoveOk(b: Book, id: int, stamp: map<int, nat>, now: nat)
    requires BookOk(b, stamp, now) && Resting(b, id)
    ensures BookOk(Remove(b, id), stamp, now) && !Resting(Remove(b, id), id)
    ensures Total(b) == Total(Remove(b, id)) + Find(b, id).remaining && Remove(b, id).Count() < b.Count()
  {
    PriorityAfterWithout(Buy, b.bids, id, stamp, now);
    PriorityAfterWithout(Sell, b.asks, id, stamp, now);
    RemoveShrinks(b, id);
    var b' := Remove(b, id);
    forall x
      ensures x in b'.bids <==> x in b.bids && x.id != id
      ensures x in b'.asks <==> x in b.asks && x.id != id
    {
      WithoutElements(b.bids, id, x);
      WithoutElements(b.asks, id, x);
    }
    NotIn(b'.bids, id);
    NotIn(b'.asks, id);
    var e := Find(b, id);
    if e in b.bids {
      WithoutQuantity(Buy, b.bids, e, stamp, now);
      assert !HasId(b.asks, id) by { NotIn(b.asks, id); }
      WithoutAbsent(b.asks, id);
    } else {
      WithoutQuantity(Sell, b.asks, e, stamp, now);
      assert !HasId(b.bids, id) by { NotIn(b.bids, id); }
      WithoutAbsent(b.bids, id);
    }
  }

  lemma {:induction false} WithoutQuantity(s: Side, l: seq<Entry>, e: Entry, stamp: map<int, nat>, now: nat)
    requires Prioritised(s, l, stamp, now) && e in l
    ensures Quantity(l) == Quantity(Without(l, e.id)) + e.remaining
  {
    assert forall x :: x in l[1..] ==> x.id != l[0].id;
    assert l == [l[0]] + l[1..];
    if l[0].id == e.id {
      WithoutAbsent(l[1..], e.id);
    } else {
      WithoutQuantity(s, l[1..], e, stamp, now);
      assert Without(l, e.id)[1..] == Without(l[1..], e.id);
    }
  }

  lemma SweptOk(b: Book, e: Entry, stamp: map<int, nat>, now: nat)
    requires BookOk(b, stamp, now)
    ensures BookOk(Swept(b, e), stamp, now) && Swept(b, e).Count() <= b.Count()
    ensures var g := Matched(b, e);
            Total(b) == Total(Swept(b, e)) + Traded(g.trades) && e.remaining == g.left + Traded(g.trades)
  {
    var s := Opposite(e.side);
    PriorityAfterGreedy(e.id, e.price, e.remaining, s, b.On(s), stamp, now);
    GreedyConserves(e.id, e.price, e.remaining, s, b.On(s));
    var n := GreedyLeaves(e.id, e.price, e.remaining, s, b.On(s));
    var swept := Swept(b, e);
    forall x, y | x in swept.bids && y in swept.asks
      ensures x.id != y.id
    {
      NotIn(swept.bids, x.id);
      NotIn(swept.asks, y.id);
      NotIn(b.bids, x.id);
      NotIn(b.asks, y.id);
    }
  }

  lemma SubmitKeeps(r: Run, e: Entry, capacity: nat)
    requires Invariant(r, capacity) && StaysDistinct(r.book, e) && r.book.Count() < capacity
    ensures Invariant(Step(r, Submit(e), capacity), capacity)
  {
    var g := Matched(r.book, e);
    var swept := Swept(r.book, e);
    SweptOk(r.book, e, r.stamp, r.now);
    hide BookOk, Resting, Matched, Swept;
    if g.left > 0 {
      PlaceOk(swept, e.(remaining := g.left, state := PartFill), r.stamp, r.now);
    } else {
      BookLater(swept, r.stamp, r.now, r.stamp, r.now + 1);
    }
  }

  lemma ModifyKeeps(r: Run, id: u64, qty: u64, capacity: nat)
    requires Invariant(r, capacity) && Resting(r.book, id)
    ensures Invariant(Step(r, Modify(id, qty), capacity), capacity)
  {
    hide BookOk;
    hide Resting;
    hide Place;
    hide Remove;
    var e := Find(r.book, id);
    RemoveOk(r.book, id, r.stamp, r.now);
    PlaceOk(Remove(r.book, id), Entry(id, e.price, qty, qty, e.side, Limit, New), r.stamp, r.now);
  }

  lemma StepKeeps(r: Run, op: Op, capacity: nat)
    requires Invariant(r, capacity) && Legal(r.book, op, capacity)
    ensures Invariant(Step(r, op, capacity), capacity)
  {
    hide BookOk;
    hide Resting;
    hide Place;
    hide Remove;
    hide BookSpec.Submit;
    var b := r.book;
    BookLater(b, r.stamp, r.now, r.stamp, r.now + 1);
    match op
    case Submit(e) =>
      if b.Count() < capacity {
        SubmitKeeps(r, e, capacity);
      }
    case Add(id, side, price, qty) =>
      if b.Count() < capacity {
        PlaceOk(b, Entry(id, price, qty, qty, side, Limit, New), r.stamp, r.now);
      }
    case Cancel(id) =>
      if Resting(b, id) {
        RemoveOk(b, id, r.stamp, r.now);
        BookLater(Remove(b, id), r.stamp, r.now, r.stamp, r.now + 1);
      }
    case Modify(id, qty) =>
      if Resting(b, id) {
        ModifyKeeps(r, id, qty, capacity);
      }
  }

  /** Two orders with one id are never in priority order. */
  lemma {:induction false} SameIdBreaks(s: Side, l: seq<Entry>, e: Entry, stamp: map<int, nat>, now: nat)
    requires HasId(l, e.id)
    ensures !Prioritised(s, Insert(s, l, e), stamp, now)
  {
    var i :| 0 <= i < |l| && l[i].id == e.id;
    if Better(s, e.price, l[0].price) {
      assert ([e] + l)[1..] == l && l[i] in l;
    } else {
      var l' := Insert(s, l, e);
      assert l'[1..] == Insert(s, l[1..], e);
      if i == 0 {
        InsertElements(s, l[1..], e, e);
      } else {
        assert l[1..][i - 1].id == e.id;
        SameIdBreaks(s, l[1..], e, stamp, now);
      }
    }
  }

  lemma PlaceBreaks(b: Book, e: Entry, stamp: map<int, nat>, now: nat)
    requires Resting(b, e.id)
    ensures !BookOk(Place(b, e), stamp, now)
  {
    var s := e.side;
    if HasId(b.On(s), e.id) {
      SameIdBreaks(s, b.On(s), e, stamp, now);
    } else {
      var l := b.On(Opposite(s));
      var i :| 0 <= i < |l| && l[i].id == e.id;
      InsertElements(s, b.On(s), e, e);
      assert l[i] in l;
    }
  }

  /** From a consistent book, a step keeps it consistent if and only if it brings no id in twice. */
  lemma StepKeepsIff(r: Run, op: Op, capacity: nat)
    requires Invariant(r, capacity)
    ensures Invariant(Step(r, op, capacity), capacity) <==> Legal(r.book, op, capacity)
  {
    hide BookOk, Resting, Place, Remove, Matched, Swept;
    if Legal(r.book, op, capacity) {
      StepKeeps(r, op, capacity);
    } else if op.Submit? {
      var rest := op.e.(remaining := Matched(r.book, op.e).left, state := PartFill);
      PlaceBreaks(Swept(r.book, op.e), rest, r.stamp[op.e.id := r.now], r.now + 1);
    } else {
      PlaceBreaks(r.book, Entry(op.id, op.price, op.qty, op.qty, op.side, Limit, New), r.stamp[op.id := r.now], r.now + 1);
    }
  }

  /** An input that brings an id in twice: two adds under one id. */
  lemma SameIdTwice(id: u64, side: Side, price: int, qty: u64)
    ensures !Legal(After([Add(id, side, price, qty)], 2).book, Add(id, side, price, qty), 2)
  {
    var ops := [Add(id, side, price, qty)];
    assert ops[..0] == [];
    assert After(ops, 2).book.On(side) == [Entry(id, price, qty, qty, side, Limit, New)];
    assert After(ops, 2).book.On(side)[0].id == id;
  }

  /** After any legal run from an empty book: both sides are in strict price-time order by last arrival, no id
      rests twice, resting orders are New or PartFill, the quantities balance, and the pool is not overrun. */
  lemma {:induction false} RunKeeps(ops: seq<Op>, capacity: nat)
    requires LegalRun(ops, capacity)
    ensures Invariant(After(ops, capacity), capacity)
  {
    if ops != [] {
      RunKeeps(ops[..|ops|-1], capacity);
      StepKeeps(After(ops[..|ops|-1], capacity), ops[|ops|-1], capacity);
    }
  }

  /** Trades meet the resting orders in priority order: never a better price after a worse one, and within a
      price in the order the orders last arrived. */
  ghost predicate InPriorityOrder(s: Side, ts: seq<Trade>, stamp: map<int, nat>) {
    && (forall i :: 0 <= i < |ts| ==> ts[i].passiveId in stamp)
    && forall i, j :: 0 <= i < j < |ts| ==>
         Better(s, ts[i].price, ts[j].price)
         || (ts[i].price == ts[j].price && stamp[ts[i].passiveId] < stamp[ts[j].passiveId])
  }

  lemma GreedyInPriorityOrder(id: u64, limit: int, rem: u64, s: Side, l: seq<Entry>, stamp: map<int, nat>, now: nat)
    requires Prioritised(s, l, stamp, now)
    ensures InPriorityOrder(s, Greedy(id, limit, rem, s, l).trades, stamp)
  {
    PriorityOfPairs(s, l, stamp, now);
    TradeQuality(id, limit, rem, s, l);
    hide *;
    PairsInPriorityOrder(s, l, Greedy(id, limit, rem, s, l).trades, stamp);
  }

  lemma PairsInPriorityOrder(s: Side, l: seq<Entry>, ts: seq<Trade>, stamp: map<int, nat>)
    requires |ts| <= |l| && forall i :: 0 <= i < |ts| ==> ts[i].passiveId == l[i].id && ts[i].price == l[i].price
    requires forall i :: 0 <= i < |l| ==> l[i].id in stamp
    requires forall i, j :: 0 <= i < j < |l| ==> Before(s, l[i], l[j], stamp)
    ensures InPriorityOrder(s, ts, stamp)
  {
    forall i, j | 0 <= i < j < |ts|
      ensures Better(s, ts[i].price, ts[j].price)
              || (ts[i].price == ts[j].price && stamp[ts[i].passiveId] < stamp[ts[j].passiveId])
    {
      assert Before(s, l[i], l[j], stamp);
    }
  }

  /** In any reachable book, an incoming order trades in price-time priority. */
  lemma TradesFollowPriority(ops: seq<Op>, e: Entry, capacity: nat)
    requires LegalRun(ops, capacity)
    ensures var r := After(ops, capacity);
            InPriorityOrder(Opposite(e.side), BookSpec.Submit(r.book, e).trades, r.stamp)
  {
    hide *;
    RunKeeps(ops, capacity);
    SubmitInPriorityOrder(After(ops, capacity), e, capacity);
  }

  lemma SubmitInPriorityOrder(r: Run, e: Entry, capacity: nat)
    requires Invariant(r, capacity)
    ensures InPriorityOrder(Opposite(e.side), BookSpec.Submit(r.book, e).trades, r.stamp)
  {
    var s := Opposite(e.side);
    GreedyInPriorityOrder(e.id, e.price, e.remaining, s, r.book.On(s), r.stamp, r.now);
  }

  // ---------------------------------------------------------------------------------------------------
  // The book is never crossed

  predicate Uncrossed(b: Book) {
    b.bids == [] || b.asks == [] || b.bids[0].price < b.asks[0].price
  }

  /** Only an `add` can cross the book: when it rests an order that reaches the best opposite price. */
  predicate Tame(b: Book, op: Op, capacity: nat) {
    match op
    case Add(_, side, price, _) =>
      var l := b.On(Opposite(side));
      b.Count() >= capacity || l == [] || Better(Opposite(side), price, l[0].price)
    case _ => true
  }

  lemma InsertHead(s: Side, l: seq<Entry>, e: Entry)
    ensures Insert(s, l, e)[0] == if l == [] || Better(s, e.price, l[0].price) then e else l[0]
  {
  }

  lemma PlaceUncrossed(b: Book, e: Entry)
    requires Uncrossed(b)
    ensures var l := b.On(Opposite(e.side));
            Uncrossed(Place(b, e)) <==> l == [] || Better(Opposite(e.side), e.price, l[0].price)
  {
    InsertHead(e.side, b.On(e.side), e);
  }

  lemma SubmitUncrossed(b: Book, e: Entry)
    requires Uncrossed(b) && Sorted(Buy, b.bids) && Sorted(Sell, b.asks)
    ensures Uncrossed(BookSpec.Submit(b, e).book)
  {
    var s := Opposite(e.side);
    var l := b.On(s);
    var g := Matched(b, e);
    var n := GreedyLeaves(e.id, e.price, e.remaining, s, l);
    GreedyExhausts(e.id, e.price, e.remaining, s, l);
    assert g.rest != [] ==> g.rest[0].price == l[n].price && !Better(s, l[n].price, l[0].price);
    assert Uncrossed(Swept(b, e));
    if g.left > 0 {
      PlaceUncrossed(Swept(b, e), e.(remaining := g.left, state := PartFill));
    }
  }

  /** A removed order leaves each side with heads no better than before. */
  lemma RemoveUncrossed(b: Book, id: int)
    requires Uncrossed(b) && Sorted(Buy, b.bids) && Sorted(Sell, b.asks)
    ensures Uncrossed(Remove(b, id))
    ensures forall s :: Remove(b, id).On(s) != [] ==>
                b.On(s) != [] && !Better(s, Remove(b, id).On(s)[0].price, b.On(s)[0].price)
  {
    forall s | Remove(b, id).On(s) != []
      ensures b.On(s) != [] && !Better(s, Remove(b, id).On(s)[0].price, b.On(s)[0].price)
    {
      var x := Remove(b, id).On(s)[0];
      WithoutElements(b.On(s), id, x);
      var i :| 0 <= i < |b.On(s)| && b.On(s)[i] == x;
    }
    assert Remove(b, id).On(Buy) == Remove(b, id).bids && Remove(b, id).On(Sell) == Remove(b, id).asks;
    assert b.On(Buy) == b.bids && b.On(Sell) == b.asks;
  }

  /** A cancelled order that comes back at its own price cannot cross: it did not cross before. */
  lemma ModifyUncrossed(b: Book, id: u64, qty: u64, capacity: nat, stamp: map<int, nat>, now: nat)
    requires Uncrossed(b) && BookOk(b, stamp, now)
    ensures Uncrossed(BookSpec.Modify(b, id, qty, capacity))
  {
    if Resting(b, id) {
      PriorityOfPairs(Buy, b.bids, stamp, now);
      PriorityOfPairs(Sell, b.asks, stamp, now);
      var e := Find(b, id);
      RemoveUncrossed(b, id);
      var s := e.side;
      assert e in b.On(s);
      var i :| 0 <= i < |b.On(s)| && b.On(s)[i] == e;
      assert !Better(s, e.price, b.On(s)[0].price);
      PlaceUncrossed(Remove(b, id), Entry(id, e.price, qty, qty, s, Limit, New));
    }
  }

  /** One step from an uncrossed book: it stays uncrossed if and only if the step is not an `add` that
      reaches the other side. */
  lemma StepUncrossed(r: Run, op: Op, capacity: nat)
    requires Invariant(r, capacity) && Uncrossed(r.book)
    ensures Uncrossed(Step(r, op, capacity).book) <==> Tame(r.book, op, capacity)
  {
    PriorityOfPairs(Buy, r.book.bids, r.stamp, r.now);
    PriorityOfPairs(Sell, r.book.asks, r.stamp, r.now);
    match op
    case Submit(e) => SubmitUncrossed(r.book, e);
    case Add(id, side, price, qty) => PlaceUncrossed(r.book, Entry(id, price, qty, qty, side, Limit, New));
    case Cancel(id) => RemoveUncrossed(r.book, id);
    case Modify(id, qty) => ModifyUncrossed(r.book, id, qty, capacity, r.stamp, r.now);
  }

  ghost predicate TameRun(ops: seq<Op>, capacity: nat) {
    ops != [] ==>
      TameRun(ops[..|ops|-1], capacity) && Tame(After(ops[..|ops|-1], capacity).book, ops[|ops|-1], capacity)
  }

  /** After any legal run of submits, cancels and modifies (and adds that do not reach the other side) the
      best bid is strictly below the best ask. */
  lemma {:induction false} NeverCrossed(ops: seq<Op>, capacity: nat)
    requires LegalRun(ops, capacity) && TameRun(ops, capacity)
    ensures Uncrossed(After(ops, capacity).book)
  {
    if ops != [] {
      var before := ops[..|ops|-1];
      NeverCrossed(before, capacity);
      RunKeeps(before, capacity);
      StepUncrossed(After(before, capacity), ops[|ops|-1], capacity);
    }
  }
}
