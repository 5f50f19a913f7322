/** Value types shared by every component: machine integers, enums, orders and trades as values. */
module Types {

  const U32: int := 0x1_0000_0000
  const U64: int := 0x1_0000_0000_0000_0000
  const I63: int := 0x8000_0000_0000_0000

  type u32 = x: int | 0 <= x < U32
  type u64 = x: int | 0 <= x < U64
  type i64 = x: int | -I63 <= x < I63

  /** Unsigned 64-bit wrap-around. */
  function Wrap(n: int): u64 {
    n % U64
  }

  /** Incrementing a wrapped value, and small values, which wrapping leaves alone. */
  lemma WrapNext(n: int)
    ensures Wrap(Wrap(n) + 1) == Wrap(n + 1)
    ensures 0 <= n < U64 ==> Wrap(n) == n
  {
  }

  lemma WrapIs(n: int)
    ensures Wrap(n) == n % 0x1_0000_0000_0000_0000
  {
  }

  lemma WrapAdd(n: int, d: int)
    ensures Wrap(Wrap(n) + d) == Wrap(n + d)
  {
  }

  /** A 64-bit pattern read as two's complement. */
  function Signed(x: u64): i64 {
    if x >= I63 then x - U64 else x
  }

  datatype Option<+T> = None | Some(value: T)

  datatype Side = Buy | Sell

  datatype OrderType = Limit | Market

  datatype OrderState = New | PartFill | Filled | Cancelled

  /** The value of an order: every field but the list links and the timestamp. */
  datatype Entry = Entry(id: u64, price: int, qty: u64, remaining: u64,
                         side: Side, typ: OrderType, state: OrderState)

  /** A trade without its timestamp. */
  datatype Trade = Trade(aggressiveId: u64, passiveId: u64, price: int, qty: u64)

  /** A trade as the engine reports it. */
  datatype TradeEvent = TradeEvent(trade: Trade, timestamp: u64)

  function Opposite(s: Side): (r: Side) {
    if s.Buy? then Sell else Buy
  }

  /** On the book side `s`, price `p` is strictly ahead of price `q`. */
  predicate Better(s: Side, p: int, q: int) {
    if s.Buy? then p > q else p < q
  }

  function Min(a: int, b: int): int {
    if a <= b then a else b
  }

  function Max(a: int, b: int): int {
    if a <= b then b else a
  }

  /** A clock: the timestamp handed out by the k-th reading. */
  type Clock = nat -> u64

  function Stamp(ts: seq<Trade>, clock: Clock): (r: seq<TradeEvent>)
    ensures |r| == |ts|
    ensures forall i :: 0 <= i < |ts| ==> r[i] == TradeEvent(ts[i], clock(i))
  {
    seq(|ts|, i requires 0 <= i < |ts| => TradeEvent(ts[i], clock(i)))
  }
}
