/** The transition table of the order states against what a match does to them. */
module OrderStates {
  import opened Types
  import opened BookSpec
  import opened BookLaws

  /** The table: New to PartFill to Filled, and from both of the first two to Cancelled. */
  predicate Documented(from: OrderState, to: OrderState) {
    match from
    case New => to.PartFill? || to.Cancelled?
    case PartFill => to.Filled? || to.Cancelled?
    case Filled => false
    case Cancelled => false
  }

  predicate InTable(from: OrderState, to: OrderState) {
    from == to || Documented(from, to)
  }

  /** The incoming order. What it has over the quantity on offer rests, as PartFill, although it has traded nothing if and
      only if it crosses nothing. From New, the state it ends in is in the table if and only if there is such a rest. */
  lemma AggressorState(b: Book, e: Entry)
    ensures var s := Opposite(e.side);
            var offer := Available(e.price, s, b.On(s));
            && (offer < e.remaining ==>
                  e.(remaining := e.remaining - offer, state := StateAfter(e.remaining - offer)) in Submit(b, e).book.On(e.side))
            && (Submit(b, e).trades == [] <==> !Crosses(e.price, e.remaining, s, b.On(s)))
            && (InTable(New, StateAfter(Matched(b, e).left)) <==> offer < e.remaining)
  {
    var s := Opposite(e.side);
    GreedyLeft(e.id, e.price, e.remaining, s, b.On(s));
    var rest := e.(remaining := Matched(b, e).left, state := PartFill);
    if rest.remaining > 0 {
      InsertElements(e.side, Swept(b, e).On(e.side), rest, rest);
    }
  }

  /** An input for which the resting order is marked PartFill and never traded: any order into the empty book. */
  lemma UntradedPartFill(e: Entry)
    requires e.remaining > 0
    ensures Submit(EMPTY, e) == Outcome(EMPTY.With(e.side, [e.(state := PartFill)]), [])
  {
    assert Submit(EMPTY, e).book.On(e.side) == [e.(state := PartFill)];
  }

  /** A passive order, the `i`-th of its side. A match takes it through a step that is not in the table if and only if it is
      New, the match reaches it, and what the orders before it leave over is enough for all of it. */
  lemma PassiveState(b: Book, e: Entry, i: nat)
    requires var l := b.On(Opposite(e.side)); Sorted(Opposite(e.side), l) && i < |l|
    requires var x := b.On(Opposite(e.side))[i]; x.state.New? || x.state.PartFill?
    ensures var s := Opposite(e.side);
            var l, ts := b.On(s), Submit(b, e).trades;
            && (i < |ts| ==> ts[i].passiveId == l[i].id && ts[i].qty <= l[i].remaining)
            && (i < |ts| && !InTable(l[i].state, StateAfter(l[i].remaining - ts[i].qty)) <==>
                  && l[i].state.New? && Reached(e.price, e.remaining, s, l, i)
                  && Quantity(l[..i]) + l[i].remaining <= e.remaining)
  {
    var s := Opposite(e.side);
    GreedyAllocates(e.id, e.price, e.remaining, s, b.On(s));
    FilledExactly(e.id, e.price, e.remaining, s, b.On(s), i);
  }

  /** An input for the forbidden step from New to Filled: an order rested by `add`, and one that takes it whole. */
  lemma NewToFilled(id: u64, taker: u64, price: int, qty: u64)
    requires qty > 0
    ensures var b := Add(EMPTY, id, Sell, price, qty, 1);
            var out := Submit(b, Entry(taker, price, qty, qty, Buy, Limit, New));
            && b.asks == [Entry(id, price, qty, qty, Sell, Limit, New)]
            && out == Outcome(EMPTY, [Trade(taker, id, price, qty)])
            && !InTable(New, StateAfter(0))
  {
    var b := Add(EMPTY, id, Sell, price, qty, 1);
    assert b.asks == [Entry(id, price, qty, qty, Sell, Limit, New)];
    assert b.asks[1..] == [];
    GreedyStep([], taker, price, qty, Sell, b.asks);
  }
}
