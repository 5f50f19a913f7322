/** The pre-trade risk gate and the position it guards. */
module Risk {
  import opened Types
  import opened Powers
  import opened BookSpec
  import opened BookLaws

  datatype Limits = Limits(maxOrderQty: u64, maxNotional: u64, maxLong: i64, maxShort: i64)

  /** 64-bit two's complement arithmetic. */
  function Cast(x: int): i64 {
    Signed(Wrap(x))
  }

  lemma CastExact(x: int)
    ensures -I63 <= x < I63 ==> Cast(x) == x
  {
  }

  function Negate(x: int): i64 {
    Cast(-x)
  }

  /** The order value the check looks at: a product of 64-bit words. */
  function Notional(price: int, qty: u64): u64 {
    Wrap(Wrap(price) * qty)
  }

  /** The position after a signed quantity is added. */
  function Moved(position: i64, side: Side, qty: u64): i64 {
    Cast(position + if side.Buy? then Cast(qty) else Negate(Cast(qty)))
  }

  predicate Passes(l: Limits, position: i64, side: Side, price: int, qty: u64) {
    && qty <= l.maxOrderQty && Notional(price, qty) <= l.maxNotional
    && l.maxShort <= Moved(position, side, qty) <= l.maxLong
  }

  /** The exact move, without wrap-around. */
  function Shifted(position: int, side: Side, qty: int): int {
    if side.Buy? then position + qty else position - qty
  }

  /** Limits that leave room for one more order of the largest size, on either side of the zero position. */
  predicate Headroom(l: Limits) {
    && l.maxShort <= 0 <= l.maxLong
    && l.maxLong + l.maxOrderQty < I63 && -I63 <= l.maxShort - l.maxOrderQty
  }

  predicate Within(l: Limits, position: int) {
    l.maxShort <= position <= l.maxLong
  }

  lemma MovedExact(position: i64, side: Side, qty: u64)
    requires -I63 <= Shifted(position, side, qty) < I63 && qty < I63
    ensures Moved(position, side, qty) == Shifted(position, side, qty)
  {
    hide Cast;
    CastExact(qty);
    CastExact(0 - qty as int);
    CastExact(Shifted(position, side, qty));
  }

  lemma CastOff(x: int) returns (k: int)
    ensures Cast(x) == x + k * U64
  {
    k := -(x / U64) - (if Wrap(x) >= I63 then 1 else 0);
  }

  /** For all values: the position after a fill is the exact one modulo 2^64, read as a signed 64-bit number. */
  lemma MovedModulo(position: i64, side: Side, qty: u64)
    ensures -0x8000_0000_0000_0000 <= Moved(position, side, qty) < 0x8000_0000_0000_0000
    ensures (Moved(position, side, qty) - (if side == Buy then position + qty else position - qty)) % 0x1_0000_0000_0000_0000 == 0
  {
    var a := CastOff(qty);
    var b := CastOff(0 - Cast(qty) as int);
    var delta: int := if side.Buy? then Cast(qty) else Negate(Cast(qty));
    var c := CastOff(position + delta);
    hide Cast;
    Multiple(if side.Buy? then a + c else b - a + c);
  }

  lemma Multiple(k: int)
    ensures k * U64 % 0x1_0000_0000_0000_0000 == 0
  {
  }

  lemma SameRemainder(p: i64, q: i64, x: int)
    requires (p - x) % 0x1_0000_0000_0000_0000 == 0 && (q - x) % 0x1_0000_0000_0000_0000 == 0
    ensures p == q
  {
  }

  /** What the gate decides, for all limits and values: `p` is the 64-bit position the order would lead to if it filled
      completely. */
  lemma PassesAlways(l: Limits, position: i64, side: Side, price: int, qty: u64, p: i64)
    requires (p - (if side == Buy then position + qty else position - qty)) % 0x1_0000_0000_0000_0000 == 0
    ensures Passes(l, position, side, price, qty) <==>
            && qty <= l.maxOrderQty && price * qty % 0x1_0000_0000_0000_0000 <= l.maxNotional
            && l.maxShort <= p <= l.maxLong
  {
    NotionalIs(price, qty);
    MovedModulo(position, side, qty);
    SameRemainder(p, Moved(position, side, qty), if side == Buy then position + qty else position - qty);
    hide Moved, Notional;
  }

  /** With headroom the gate decides what it is meant to: the order is small enough, its value (mod 2^64) is, and the
      position would stay in its band if it filled completely. */
  lemma PassesExactly(l: Limits, position: i64, side: Side, price: int, qty: u64)
    requires Headroom(l) && Within(l, position)
    ensures Passes(l, position, side, price, qty) <==>
            qty <= l.maxOrderQty && price * qty % U64 <= l.maxNotional && Within(l, Shifted(position, side, qty))
  {
    NotionalIs(price, qty);
    if qty <= l.maxOrderQty {
      MovedExact(position, side, qty);
    }
  }

  /** The value checked is the true one modulo 2^64, so it is the true one exactly when that fits in 64 bits. */
  lemma NotionalIs(price: int, qty: u64)
    ensures Notional(price, qty) == price * qty % U64
    ensures Notional(price, qty) == price * qty <==> 0 <= price * qty < U64
  {
    var d := price / U64;
    assert price * qty == (d * qty) * U64 + Wrap(price) * qty by {
      assert price == d * U64 + Wrap(price);
      assert (d * U64) * qty == (d * qty) * U64;
    }
    DropMultiple(price * qty, d * qty, Wrap(price) * qty, U64);
  }

  /** An order over the value limit that passes the gate: its value is a multiple of 2^64. */
  lemma NotionalWraps(l: Limits)
    requires l.maxOrderQty >= 0x1_0000_0000 && Headroom(l) && l.maxLong >= 0x1_0000_0000
    ensures Passes(l, 0, Buy, 0x1_0000_0000, 0x1_0000_0000)
    ensures 0x1_0000_0000 * 0x1_0000_0000 > l.maxNotional
  {
    PassesExactly(l, 0, Buy, 0x1_0000_0000, 0x1_0000_0000);
  }

  /** The position after one fill per trade. */
  function PositionAfter(position: i64, side: Side, ts: seq<Trade>): i64 {
    if ts == [] then position else Moved(PositionAfter(position, side, ts[..|ts| - 1]), side, ts[|ts| - 1].qty)
  }

  lemma {:induction false} TradedPush(ts: seq<Trade>, t: Trade)
    ensures Traded(ts + [t]) == Traded(ts) + t.qty
  {
    if ts == [] {
      assert (ts + [t])[1..] == [];
    } else {
      TradedPush(ts[1..], t);
      assert (ts + [t])[1..] == ts[1..] + [t];
    }
  }

  /** As long as the traded total stays within reach, fills add up exactly. */
  lemma {:induction false} FilledExact(position: i64, side: Side, ts: seq<Trade>)
    requires Traded(ts) < I63 && -I63 <= Shifted(position, side, Traded(ts)) < I63
    ensures PositionAfter(position, side, ts) == Shifted(position, side, Traded(ts))
    decreases |ts|
  {
    if ts != [] {
      var front, t := ts[..|ts| - 1], ts[|ts| - 1];
      assert ts == front + [t];
      TradedPush(front, t);
      FilledExact(position, side, front);
      MovedExact(PositionAfter(position, side, front), side, t.qty);
    }
  }

  lemma {:induction false} TradedTake(ts: seq<Trade>, n: nat)
    requires n <= |ts|
    ensures Traded(ts[..n]) <= Traded(ts)
    decreases |ts| - n
  {
    if n < |ts| {
      TradedTake(ts, n + 1);
      assert ts[..n + 1] == ts[..n] + [ts[n]];
      TradedPush(ts[..n], ts[n]);
    } else {
      assert ts[..n] == ts;
    }
  }

  /** An order that passed the gate moves the position, fill by fill, only inside its band: `match` fills no more than
      the quantity the gate projected. */
  lemma FillsStayWithin(l: Limits, position: i64, e: Entry, b: Book, n: nat)
    requires Headroom(l) && Within(l, position) && Passes(l, position, e.side, e.price, e.qty)
    requires e.remaining <= e.qty && n <= |BookSpec.Submit(b, e).trades|
    ensures var ts := BookSpec.Submit(b, e).trades[..n];
            PositionAfter(position, e.side, ts) == Shifted(position, e.side, Traded(ts)) && Within(l, PositionAfter(position, e.side, ts))
  {
    var ts := BookSpec.Submit(b, e).trades;
    PassesExactly(l, position, e.side, e.price, e.qty);
    GreedyConserves(e.id, e.price, e.remaining, Opposite(e.side), b.On(Opposite(e.side)));
    TradedTake(ts, n);
    FilledExact(position, e.side, ts[..n]);
  }

  class RiskChecker {
    const limits: Limits
    var netPosition: i64
    var ordersRejected: u64

    constructor (limits: Limits)
      ensures this.limits == limits && netPosition == 0 && ordersRejected == 0
    {
      this.limits := limits;
      netPosition, ordersRejected := 0, 0;
    }

    method Check(side: Side, price: int, qty: u64) returns (pass: bool)
      modifies `ordersRejected
      ensures pass == Passes(limits, netPosition, side, price, qty)
      ensures ordersRejected == if pass then old(ordersRejected) else Wrap(old(ordersRejected) as int + 1)
    {
      WrapNext(ordersRejected);
      hide Cast, Negate, Notional, Wrap;
      var notional := Notional(price, qty);
      var qtyViolation := qty > limits.maxOrderQty;
      var notionalViolation := notional > limits.maxNotional;
      var delta: int := if side == Buy then Cast(qty) else Negate(Cast(qty));
      var projected := Cast(netPosition + delta);
      var longViolation := projected > limits.maxLong;
      var shortViolation := projected < limits.maxShort;
      var rejected := qtyViolation || notionalViolation || longViolation || shortViolation;
      ordersRejected := Wrap(ordersRejected as int + if rejected then 1 else 0);
      pass := !rejected;
    }

    method OnFill(side: Side, qty: u64)
      modifies `netPosition
      ensures netPosition == Moved(old(netPosition), side, qty)
    {
      var delta: int := if side == Buy then Cast(qty) else Negate(Cast(qty));
      netPosition := Cast(netPosition + delta);
    }
  }
}
