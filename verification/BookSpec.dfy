/** The abstract limit order book: per side one sequence of orders, best price first and FIFO within a
    price, and the operations of the exchange on it. */
module BookSpec {
  import opened Types

  datatype Book = Book(bids: seq<Entry>, asks: seq<Entry>) {
    function On(s: Side): seq<Entry> {
      if s.Buy? then bids else asks
    }

    function With(s: Side, l: seq<Entry>): Book {
      if s.Buy? then this.(bids := l) else this.(asks := l)
    }

    function Count(): nat {
      |bids| + |asks|
    }
  }

  const EMPTY := Book([], [])

  ghost predicate HasId(l: seq<Entry>, id: int) {
    exists i :: 0 <= i < |l| && l[i].id == id
  }

  ghost predicate Resting(b: Book, id: int) {
    HasId(b.bids, id) || HasId(b.asks, id)
  }

  /** `e` behind every order whose price is at least as good. */
  function Insert(s: Side, l: seq<Entry>, e: Entry): seq<Entry> {
    if l == [] || Better(s, e.price, l[0].price) then [e] + l
    else [l[0]] + Insert(s, l[1..], e)
  }

  function Without(l: seq<Entry>, id: int): seq<Entry> {
    if l == [] then []
    else if l[0].id == id then Without(l[1..], id)
    else [l[0]] + Without(l[1..], id)
  }

  function Place(b: Book, e: Entry): Book {
    b.With(e.side, Insert(e.side, b.On(e.side), e))
  }

  function Remove(b: Book, id: int): Book {
    Book(Without(b.bids, id), Without(b.asks, id))
  }

  datatype Sweep = Sweep(trades: seq<Trade>, rest: seq<Entry>, left: u64)

  /** The taker `id` with limit `limit` and `rem` to fill consumes the resting side `s` from the front. */
  function Greedy(id: u64, limit: int, rem: u64, s: Side, l: seq<Entry>): Sweep
    decreases |l|
  {
    if rem == 0 || l == [] || Better(s, limit, l[0].price) then
      Sweep([], l, rem)
    else if rem < l[0].remaining then
      Sweep([Trade(id, l[0].id, l[0].price, rem)],
            [l[0].(remaining := l[0].remaining - rem, state := PartFill)] + l[1..], 0)
    else
      var r := Greedy(id, limit, rem - l[0].remaining, s, l[1..]);
      r.(trades := [Trade(id, l[0].id, l[0].price, l[0].remaining)] + r.trades)
  }

  /** The state both sides of a trade, and an order once matched, are put in. */
  function StateAfter(left: u64): OrderState {
    if left == 0 then Filled else PartFill
  }

  datatype Outcome = Outcome(book: Book, trades: seq<Trade>)

  /** What the incoming order does to the opposite side. */
  function Matched(b: Book, e: Entry): Sweep {
    Greedy(e.id, e.price, e.remaining, Opposite(e.side), b.On(Opposite(e.side)))
  }

  /** What is left of `e` to rest. */
  function Remainder(b: Book, e: Entry): Entry {
    e.(remaining := Matched(b, e).left, state := PartFill)
  }

  /** The book once `e` has traded, before its remainder rests. */
  function Swept(b: Book, e: Entry): Book {
    b.With(Opposite(e.side), Matched(b, e).rest)
  }

  /** An incoming order is matched, and what is left of it rests. */
  function Submit(b: Book, e: Entry): Outcome {
    var r := Matched(b, e);
    if r.left > 0 then Outcome(Place(Swept(b, e), e.(remaining := r.left, state := PartFill)), r.trades)
    else Outcome(Swept(b, e), r.trades)
  }

  /** Submitting `e` brings no id into the book a second time: nothing of it is left to rest, or no order with its id is
      left once it has traded. Fresh ids are one way to this. */
  ghost predicate StaysDistinct(b: Book, e: Entry) {
    Matched(b, e).left > 0 ==> !Resting(Swept(b, e), e.id)
  }

  /** `Submit` through a pool of `capacity` slots: a full pool drops the order. */
  function SubmitBounded(b: Book, e: Entry, capacity: nat): Outcome {
    if b.Count() >= capacity then Outcome(b, []) else Submit(b, e)
  }

  /** Rests an order without matching it. */
  function Add(b: Book, id: u64, side: Side, price: int, qty: u64, capacity: nat): Book {
    if b.Count() >= capacity then b else Place(b, Entry(id, price, qty, qty, side, Limit, New))
  }

  ghost function Find(b: Book, id: int): (e: Entry)
    requires Resting(b, id)
    ensures e in b.bids + b.asks && e.id == id
  {
    if HasId(b.bids, id) then
      var i :| 0 <= i < |b.bids| && b.bids[i].id == id; b.bids[i]
    else
      var i :| 0 <= i < |b.asks| && b.asks[i].id == id; b.asks[i]
  }

  /** Cancel, then add with the new quantity. */
  ghost function Modify(b: Book, id: u64, qty: u64, capacity: nat): Book {
    if Resting(b, id) then
      Add(Remove(b, id), id, Find(b, id).side, Find(b, id).price, qty, capacity)
    else b
  }

  lemma RemoveAbsent(b: Book, id: int)
    requires !Resting(b, id)
    ensures Remove(b, id) == b
  {
    WithoutAbsent(b.bids, id);
    WithoutAbsent(b.asks, id);
  }

  lemma {:induction false} WithoutAbsent(l: seq<Entry>, id: int)
    requires forall i :: 0 <= i < |l| ==> l[i].id != id
    ensures Without(l, id) == l
  {
    if l != [] {
      WithoutAbsent(l[1..], id);
    }
  }

  lemma ModifyAbsent(b: Book, id: u64, qty: u64, capacity: nat)
    requires !Resting(b, id)
    ensures Modify(b, id, qty, capacity) == b
  {
  }

  lemma ModifyPresent(b: Book, id: u64, qty: u64, capacity: nat)
    requires Resting(b, id)
    ensures var e := Find(b, id);
            Modify(b, id, qty, capacity) == Add(Remove(b, id), id, e.side, e.price, qty, capacity)
  {
  }

  /** What one trade with the front order leaves of the resting side. */
  function AfterFill(l: seq<Entry>, fill: u64): seq<Entry>
    requires l != [] && fill <= l[0].remaining
  {
    if fill == l[0].remaining then l[1..]
    else [l[0].(remaining := l[0].remaining - fill, state := PartFill)] + l[1..]
  }

  predicate Crosses(limit: int, rem: u64, s: Side, l: seq<Entry>) {
    rem > 0 && l != [] && !Better(s, limit, l[0].price)
  }

  function Resume(done: seq<Trade>, r: Sweep): Sweep {
    r.(trades := done + r.trades)
  }

  lemma GreedyStep(done: seq<Trade>, id: u64, limit: int, rem: u64, s: Side, l: seq<Entry>)
    requires Crosses(limit, rem, s, l)
    ensures var fill := Min(rem, l[0].remaining);
            var t := Trade(id, l[0].id, l[0].price, fill);
            Resume(done, Greedy(id, limit, rem, s, l)) ==
            Resume(done + [t], Greedy(id, limit, rem - fill, s, AfterFill(l, fill)))
  {
    var fill := Min(rem, l[0].remaining);
    var t := Trade(id, l[0].id, l[0].price, fill);
    var r := Greedy(id, limit, rem - fill, s, AfterFill(l, fill));
    assert done + ([t] + r.trades) == (done + [t]) + r.trades;
  }

  lemma GreedyStop(done: seq<Trade>, id: u64, limit: int, rem: u64, s: Side, l: seq<Entry>)
    requires !Crosses(limit, rem, s, l)
    ensures Resume(done, Greedy(id, limit, rem, s, l)) == Sweep(done, l, rem)
  {
    assert done + [] == done;
  }

  lemma ResumeNothing(r: Sweep)
    ensures Resume([], r) == r
  {
    assert [] + r.trades == r.trades;
  }
}
