/** The wire format of orders and trade reports, and its lane-wise XOR checksum. */
module Codec {
  import opened Types
  import opened Bytes
  import opened ByteType
  import ObjectPool

  const NEW_ORDER: byte := 0x01
  const TRADE_REPORT: byte := 0x03
  const NEW_ORDER_SIZE: nat := 33
  const TRADE_REPORT_SIZE: nat := 47

  /** The order fields that travel; side and type are raw bytes. */
  datatype WireOrder = WireOrder(id: u64, price: i64, qty: u64, side: byte, typ: byte)

  // ---------------------------------------------------------------------------------------------------
  // Checksum

  function Xor(x: byte, y: byte): byte {
    x ^ y
  }

  function Xor32(x: bv32, y: bv32): bv32 {
    x ^ y
  }

  /** Lane `j`: the XOR of the bytes whose offset is `j` modulo 4. */
  function Lane(data: seq<byte>, j: nat): byte {
    if data == [] then 0
    else if (|data| - 1) % 4 == j then Xor(Lane(data[..|data|-1], j), data[|data|-1])
    else Lane(data[..|data|-1], j)
  }

  function Pack(a: byte, b: byte, c: byte, d: byte): bv32 {
    (a as bv32) | ((b as bv32) << 8) | ((c as bv32) << 16) | ((d as bv32) << 24)
  }

  function Checksum(data: seq<byte>): bv32 {
    Pack(Lane(data, 0), Lane(data, 1), Lane(data, 2), Lane(data, 3))
  }

  /** A byte moved to lane `k` of a word. */
  function InLane(x: byte, k: nat): bv32
    requires k < 4
  {
    if k == 0 then x as bv32
    else if k == 1 then (x as bv32) << 8
    else if k == 2 then (x as bv32) << 16
    else (x as bv32) << 24
  }

  lemma PackXor0(a: byte, b: byte, c: byte, d: byte, x: byte)
    ensures Xor32(Pack(a, b, c, d), InLane(x, 0)) == Pack(Xor(a, x), b, c, d)
  {
  }

  lemma PackXor1(a: byte, b: byte, c: byte, d: byte, x: byte)
    ensures Xor32(Pack(a, b, c, d), InLane(x, 1)) == Pack(a, Xor(b, x), c, d)
  {
  }

  lemma PackXor2(a: byte, b: byte, c: byte, d: byte, x: byte)
    ensures Xor32(Pack(a, b, c, d), InLane(x, 2)) == Pack(a, b, Xor(c, x), d)
  {
  }

  lemma PackXor3(a: byte, b: byte, c: byte, d: byte, x: byte)
    ensures Xor32(Pack(a, b, c, d), InLane(x, 3)) == Pack(a, b, c, Xor(d, x))
  {
  }

  lemma PackInjective(a: byte, b: byte, c: byte, d: byte, a': byte, b': byte, c': byte, d': byte)
    ensures Pack(a, b, c, d) == Pack(a', b', c', d') <==> a == a' && b == b' && c == c' && d == d'
  {
    PackBytes(a, b, c, d);
    PackBytes(a', b', c', d');
  }

  /** The four bytes of a word, low byte first. */
  function WordBytes(w: bv32): (b: seq<byte>)
    ensures |b| == 4
  {
    [(w & 0xFF) as byte, ((w >> 8) & 0xFF) as byte, ((w >> 16) & 0xFF) as byte, ((w >> 24) & 0xFF) as byte]
  }

  lemma PackBytes(a: byte, b: byte, c: byte, d: byte)
    ensures WordBytes(Pack(a, b, c, d)) == [a, b, c, d]
  {
    assert (Pack(a, b, c, d) & 0xFF) as byte == a;
    assert ((Pack(a, b, c, d) >> 8) & 0xFF) as byte == b;
    assert ((Pack(a, b, c, d) >> 16) & 0xFF) as byte == c;
    assert ((Pack(a, b, c, d) >> 24) & 0xFF) as byte == d;
  }

  function ReadWord(b: seq<byte>): bv32
    requires |b| == 4
  {
    Pack(b[0], b[1], b[2], b[3])
  }

  lemma LaneAt(data: seq<byte>, n: nat, j: nat)
    requires n < |data|
    ensures Lane(data[..n+1], j) == if n % 4 == j then Xor(Lane(data[..n], j), data[n]) else Lane(data[..n], j)
  {
    hide Xor;
    assert data[..n+1][..n] == data[..n];
  }

  lemma LaneStep(data: seq<byte>, n: nat)
    requires n < |data|
    ensures Checksum(data[..n+1]) == Xor32(Checksum(data[..n]), InLane(data[n], n % 4))
  {
    hide Xor;
    hide Xor32;
    hide Lane;
    hide Pack;
    hide InLane;
    var a, b, c, d := Lane(data[..n], 0), Lane(data[..n], 1), Lane(data[..n], 2), Lane(data[..n], 3);
    LaneAt(data, n, 0);
    LaneAt(data, n, 1);
    LaneAt(data, n, 2);
    LaneAt(data, n, 3);
    match n % 4
    case 0 => PackXor0(a, b, c, d, data[n]);
    case 1 => PackXor1(a, b, c, d, data[n]);
    case 2 => PackXor2(a, b, c, d, data[n]);
    case _ => PackXor3(a, b, c, d, data[n]);
  }

  method CalculateChecksum(data: seq<byte>, len: nat) returns (crc: bv32)
    requires len <= |data|
    ensures crc == Checksum(data[..len])
  {
    hide Lane;
    crc := 0;
    EmptyChecksum();
    assert data[..0] == [];
    var i := 0;
    while i < len
      invariant 0 <= i <= len && crc == Checksum(data[..i])
    {
      hide *;
      LaneStep(data, i);
      crc := Xor32(crc, InLane(data[i], i % 4));
      i := i + 1;
    }
  }

  lemma EmptyChecksum()
    ensures Checksum([]) == 0
  {
  }

  /** If two messages differ in exactly one byte of a lane, they differ in that lane's checksum. */
  lemma {:induction false} OneByteInLane(a: seq<byte>, b: seq<byte>, p: nat)
    requires |a| == |b| && p < |a| && a[p] != b[p]
    requires forall i :: 0 <= i < |a| && i != p && i % 4 == p % 4 ==> a[i] == b[i]
    ensures Lane(a, p % 4) != Lane(b, p % 4)
  {
    hide Xor;
    var n, j := |a| - 1, p % 4;
    if p == n {
      SameLane(a[..n], b[..n], j);
      XorCancels(Lane(a[..n], j), a[n], b[n]);
    } else {
      OneByteInLane(a[..n], b[..n], p);
      XorCancels(a[n], Lane(a[..n], j), Lane(b[..n], j));
      XorCommutes(a[n], Lane(a[..n], j));
      XorCommutes(a[n], Lane(b[..n], j));
    }
  }

  lemma {:induction false} SameLane(a: seq<byte>, b: seq<byte>, j: nat)
    requires |a| == |b| && forall i :: 0 <= i < |a| && i % 4 == j ==> a[i] == b[i]
    ensures Lane(a, j) == Lane(b, j)
  {
    hide Xor;
    if a != [] {
      SameLane(a[..|a|-1], b[..|a|-1], j);
    }
  }

  lemma XorCancels(x: byte, y: byte, z: byte)
    ensures Xor(x, y) == Xor(x, z) <==> y == z
  {
    if x ^ y == x ^ z {
      assert x ^ (x ^ y) == y;
      assert x ^ (x ^ z) == z;
    }
  }

  lemma XorCommutes(x: byte, y: byte)
    ensures Xor(x, y) == Xor(y, x)
  {
  }

  // ---------------------------------------------------------------------------------------------------
  // Messages

  function NewOrderBody(o: WireOrder): (b: seq<byte>)
    ensures |b| == NEW_ORDER_SIZE - 4
  {
    [NEW_ORDER] + LittleEndian(NEW_ORDER_SIZE, 2) + LittleEndian(o.id, 8) + LittleEndian(Wrap(o.price), 8)
    + LittleEndian(o.qty, 8) + [o.side, o.typ]
  }

  function EncodeNewOrder(o: WireOrder): (b: seq<byte>)
    ensures |b| == NEW_ORDER_SIZE
  {
    NewOrderBody(o) + WordBytes(Checksum(NewOrderBody(o)))
  }

  function TradeReportBody(te: TradeEvent): (b: seq<byte>)
    ensures |b| == TRADE_REPORT_SIZE - 4
  {
    [TRADE_REPORT] + LittleEndian(TRADE_REPORT_SIZE, 2) + LittleEndian(te.trade.aggressiveId, 8)
    + LittleEndian(te.trade.passiveId, 8) + LittleEndian(Wrap(te.trade.price), 8)
    + LittleEndian(te.trade.qty, 8) + LittleEndian(te.timestamp, 8)
  }

  function EncodeTradeReport(te: TradeEvent): (b: seq<byte>)
    ensures |b| == TRADE_REPORT_SIZE
  {
    TradeReportBody(te) + WordBytes(Checksum(TradeReportBody(te)))
  }

  /** The length field, where there is one. */
  function MessageLength(buf: seq<byte>): nat
    requires |buf| >= 3
  {
    FromLittleEndian(buf[1..3])
  }

  /** The stored checksum of a framed message agrees with the bytes before it. */
  predicate ChecksumHolds(buf: seq<byte>)
    requires |buf| >= 3 && 4 <= MessageLength(buf) <= |buf|
  {
    var n := MessageLength(buf);
    ReadWord(buf[n-4..n]) == Checksum(buf[..n-4])
  }

  /** What a caller of `decode` owes it: it never reads outside the buffer. A length field below 4 is read
      before the buffer, and a new-order frame shorter than its fields past it. */
  predicate Framed(buf: seq<byte>) {
    |buf| >= 3 && MessageLength(buf) <= |buf| ==>
      4 <= MessageLength(buf) && (buf[0] == NEW_ORDER && ChecksumHolds(buf) ==> NEW_ORDER_SIZE - 4 <= |buf|)
  }

  function FieldsOf(buf: seq<byte>): WireOrder
    requires |buf| >= NEW_ORDER_SIZE - 4
  {
    Widths();
    FromLittleEndianBound(buf[3..11]);
    FromLittleEndianBound(buf[11..19]);
    FromLittleEndianBound(buf[19..27]);
    WireOrder(FromLittleEndian(buf[3..11]), Signed(FromLittleEndian(buf[11..19])), FromLittleEndian(buf[19..27]),
              buf[27], buf[28])
  }

  function Decode(buf: seq<byte>): Option<WireOrder>
    requires Framed(buf)
  {
    if |buf| < 3 || |buf| < MessageLength(buf) then None
    else if !ChecksumHolds(buf) then None
    else if buf[0] == NEW_ORDER then Some(FieldsOf(buf))
    else None
  }

  /** Enumerator values on the wire. Any byte but 0 is treated as the other enumerator. */
  function SideOf(b: byte): Side {
    if b == 0 then Buy else Sell
  }

  function TypeOf(b: byte): OrderType {
    if b == 0 then Limit else Market
  }

  /** The order `decode` fills in: unfilled, and New. */
  function Received(w: WireOrder): Entry {
    Entry(w.id, w.price, w.qty, w.qty, SideOf(w.side), TypeOf(w.typ), New)
  }

  function Sent(e: Entry): WireOrder {
    WireOrder(e.id, Signed(Wrap(e.price)), e.qty, if e.side == Buy then 0 else 1, if e.typ == Limit then 0 else 1)
  }

  lemma Fields(a: seq<byte>, b: seq<byte>, c: seq<byte>, d: seq<byte>, e: seq<byte>, tail: seq<byte>)
    requires |a| == 3 && |b| == 8 && |c| == 8 && |d| == 8 && |e| == 2
    ensures var m := a + b + c + d + e + tail;
            m[..3] == a && m[3..11] == b && m[11..19] == c && m[19..27] == d && m[27] == e[0] && m[28] == e[1]
  {
  }

  lemma EncodedFields(o: WireOrder, tail: seq<byte>)
    ensures var m := NewOrderBody(o) + tail;
            m[0] == NEW_ORDER && MessageLength(m) == NEW_ORDER_SIZE && FieldsOf(m) == o
  {
    Widths();
    LittleEndianRoundTrip(NEW_ORDER_SIZE, 2);
    LittleEndianRoundTrip(o.id, 8);
    LittleEndianRoundTrip(Wrap(o.price), 8);
    LittleEndianRoundTrip(o.qty, 8);
    hide LittleEndian;
    hide FromLittleEndian;
    hide Pow256;
    var a := [NEW_ORDER] + LittleEndian(NEW_ORDER_SIZE, 2);
    Fields(a, LittleEndian(o.id, 8), LittleEndian(Wrap(o.price), 8), LittleEndian(o.qty, 8), [o.side, o.typ], tail);
    var m := NewOrderBody(o) + tail;
    assert m[1..3] == m[..3][1..] == LittleEndian(NEW_ORDER_SIZE, 2);
  }

  /** Decoding an encoded order, whatever follows it in the buffer, gives back all its fields. */
  lemma RoundTrip(o: WireOrder, more: seq<byte>)
    ensures Framed(EncodeNewOrder(o) + more) && Decode(EncodeNewOrder(o) + more) == Some(o)
  {
    var body := NewOrderBody(o);
    var word := WordBytes(Checksum(body));
    var m := EncodeNewOrder(o) + more;
    hide NewOrderBody;
    hide Checksum;
    hide WordBytes;
    hide FieldsOf;
    hide MessageLength;
    assert m == body + (word + more);
    EncodedFields(o, word + more);
    assert m[NEW_ORDER_SIZE-4..NEW_ORDER_SIZE] == word && m[..NEW_ORDER_SIZE-4] == body;
    WordRoundTrip(body);
  }

  lemma WordRoundTrip(body: seq<byte>)
    ensures ReadWord(WordBytes(Checksum(body))) == Checksum(body)
  {
    PackBytes(Lane(body, 0), Lane(body, 1), Lane(body, 2), Lane(body, 3));
  }

  /** An encoded new order, sent and received, is the order itself for orders that are unfilled and New. */
  lemma OrderRoundTrip(e: Entry)
    ensures Framed(EncodeNewOrder(Sent(e)))
    ensures Decode(EncodeNewOrder(Sent(e))) == Some(Sent(e))
    ensures -I63 <= e.price < I63 ==> Received(Sent(e)) == e.(remaining := e.qty, state := New)
  {
    ReceivedSent(e);
    hide *;
    RoundTrip(Sent(e), []);
    assert EncodeNewOrder(Sent(e)) + [] == EncodeNewOrder(Sent(e));
  }

  lemma ReceivedSent(e: Entry)
    ensures -I63 <= e.price < I63 ==> Received(Sent(e)) == e.(remaining := e.qty, state := New)
  {
  }

  // ---------------------------------------------------------------------------------------------------
  // The format, byte by byte

  // The checksum of no bytes is zero; each byte is then added by exclusive or, shifted left by eight times its offset
  // modulo 4.

  lemma ChecksumLane0(data: seq<byte>, n: nat)
    requires n < |data| && n % 4 == 0
    ensures Checksum(data[..n+1]) == Checksum(data[..n]) ^ (data[n] as bv32)
  {
    hide *;
    LaneStep(data, n);
    XorLane0(Checksum(data[..n]), data[n]);
  }

  lemma XorLane0(w: bv32, x: byte)
    ensures Xor32(w, InLane(x, 0)) == w ^ (x as bv32)
  {
  }

  lemma ChecksumLane1(data: seq<byte>, n: nat)
    requires n < |data| && n % 4 == 1
    ensures Checksum(data[..n+1]) == Checksum(data[..n]) ^ ((data[n] as bv32) << 8)
  {
    hide *;
    LaneStep(data, n);
    XorLane1(Checksum(data[..n]), data[n]);
  }

  lemma XorLane1(w: bv32, x: byte)
    ensures Xor32(w, InLane(x, 1)) == w ^ ((x as bv32) << 8)
  {
  }

  lemma ChecksumLane2(data: seq<byte>, n: nat)
    requires n < |data| && n % 4 == 2
    ensures Checksum(data[..n+1]) == Checksum(data[..n]) ^ ((data[n] as bv32) << 16)
  {
    hide *;
    LaneStep(data, n);
    XorLane2(Checksum(data[..n]), data[n]);
  }

  lemma XorLane2(w: bv32, x: byte)
    ensures Xor32(w, InLane(x, 2)) == w ^ ((x as bv32) << 16)
  {
  }

  lemma ChecksumLane3(data: seq<byte>, n: nat)
    requires n < |data| && n % 4 == 3
    ensures Checksum(data[..n+1]) == Checksum(data[..n]) ^ ((data[n] as bv32) << 24)
  {
    hide *;
    LaneStep(data, n);
    XorLane3(Checksum(data[..n]), data[n]);
  }

  lemma XorLane3(w: bv32, x: byte)
    ensures Xor32(w, InLane(x, 3)) == w ^ ((x as bv32) << 24)
  {
  }

  /** The bytes of a word, low byte first. */
  predicate IsWord(b: seq<byte>, w: bv32)
    requires |b| == 4
  {
    && b[0] as bv32 == w & 0xFF && b[1] as bv32 == (w >> 8) & 0xFF
    && b[2] as bv32 == (w >> 16) & 0xFF && b[3] as bv32 == (w >> 24) & 0xFF
  }

  lemma IsWordBytes(b: seq<byte>, w: bv32)
    requires |b| == 4
    ensures IsWord(b, w) <==> b == WordBytes(w)
  {
  }

  /** The last four of the first `n` bytes are the checksum of those before them, low byte first. */
  predicate Sealed(m: seq<byte>, n: nat)
    requires 4 <= n <= |m|
  {
    IsWord(m[n-4..n], Checksum(m[..n-4]))
  }

  lemma SealedIs(m: seq<byte>, n: nat)
    requires 4 <= n <= |m|
    ensures Sealed(m, n) <==> m[n-4..n] == WordBytes(Checksum(m[..n-4]))
  {
    hide IsWord, Checksum, WordBytes;
    IsWordBytes(m[n-4..n], Checksum(m[..n-4]));
  }

  lemma SealedRead(m: seq<byte>, n: nat)
    requires 4 <= n <= |m|
    ensures Sealed(m, n) <==> ReadWord(m[n-4..n]) == Checksum(m[..n-4])
  {
    SealedIs(m, n);
    WordRoundTrip(m[..n-4]);
    PackBytes(m[n-4], m[n-3], m[n-2], m[n-1]);
    hide Sealed, Checksum, WordBytes;
    assert m[n-4..n] == [m[n-4], m[n-3], m[n-2], m[n-1]];
  }

  /** A new order: type 1, length 33, then id, price in two's complement, quantity, side (0 buy, 1 sell), type (0 limit,
      1 market) and checksum, at these offsets, least significant byte first. */
  lemma NewOrderLayout(e: Entry)
    ensures var m := EncodeNewOrder(Sent(e));
            && |m| == 33 && m[0] == 0x01 && FromLittleEndian(m[1..3]) == 33
            && FromLittleEndian(m[3..11]) == e.id
            && FromLittleEndian(m[11..19]) == e.price % 0x1_0000_0000_0000_0000
            && FromLittleEndian(m[19..27]) == e.qty
            && m[27] == (if e.side == Buy then 0 else 1) && m[28] == (if e.typ == Limit then 0 else 1)
            && Sealed(m, 33)
  {
    Widths();
    SignedBack(e.price);
    var o := Sent(e);
    LittleEndianRoundTrip(33, 2);
    LittleEndianRoundTrip(o.id, 8);
    LittleEndianRoundTrip(Wrap(o.price), 8);
    LittleEndianRoundTrip(o.qty, 8);
    var body := NewOrderBody(o);
    var m := EncodeNewOrder(o);
    SealedIs(m, 33);
    hide LittleEndian, FromLittleEndian, Pow256, Checksum, WordBytes, Sealed;
    var a := [NEW_ORDER] + LittleEndian(33, 2);
    Fields(a, LittleEndian(o.id, 8), LittleEndian(Wrap(o.price), 8), LittleEndian(o.qty, 8), [o.side, o.typ],
           WordBytes(Checksum(body)));
    assert m[1..3] == m[..3][1..] == LittleEndian(33, 2);
    assert m[29..33] == WordBytes(Checksum(body)) && m[..29] == body;
  }

  lemma SignedBack(n: int)
    ensures Wrap(Signed(Wrap(n))) == n % 0x1_0000_0000_0000_0000
  {
  }

  lemma ReportFields(a: seq<byte>, b: seq<byte>, c: seq<byte>, d: seq<byte>, e: seq<byte>, f: seq<byte>, tail: seq<byte>)
    requires |a| == 3 && |b| == 8 && |c| == 8 && |d| == 8 && |e| == 8 && |f| == 8 && |tail| == 4
    ensures var m := a + b + c + d + e + f + tail;
            && m[..3] == a && m[3..11] == b && m[11..19] == c && m[19..27] == d && m[27..35] == e && m[35..43] == f
            && m[43..47] == tail && m[..43] == a + b + c + d + e + f
  {
  }

  /** A trade report: type 3, length 47, then the ids of the aggressive and of the passive order, price in two's complement,
      quantity, timestamp and checksum, at these offsets. */
  lemma TradeReportLayout(te: TradeEvent)
    ensures var m := EncodeTradeReport(te);
            && |m| == 47 && m[0] == 0x03 && FromLittleEndian(m[1..3]) == 47
            && FromLittleEndian(m[3..11]) == te.trade.aggressiveId
            && FromLittleEndian(m[11..19]) == te.trade.passiveId
            && FromLittleEndian(m[19..27]) == te.trade.price % 0x1_0000_0000_0000_0000
            && FromLittleEndian(m[27..35]) == te.trade.qty
            && FromLittleEndian(m[35..43]) == te.timestamp
            && Sealed(m, 47)
  {
    Widths();
    WrapIs(te.trade.price);
    LittleEndianRoundTrip(47, 2);
    LittleEndianRoundTrip(te.trade.aggressiveId, 8);
    LittleEndianRoundTrip(te.trade.passiveId, 8);
    LittleEndianRoundTrip(Wrap(te.trade.price), 8);
    LittleEndianRoundTrip(te.trade.qty, 8);
    LittleEndianRoundTrip(te.timestamp, 8);
    var body := TradeReportBody(te);
    var m := EncodeTradeReport(te);
    SealedIs(m, 47);
    hide LittleEndian, FromLittleEndian, Pow256, Checksum, WordBytes, Sealed, Wrap;
    var a := [TRADE_REPORT] + LittleEndian(47, 2);
    ReportFields(a, LittleEndian(te.trade.aggressiveId, 8), LittleEndian(te.trade.passiveId, 8),
                 LittleEndian(Wrap(te.trade.price), 8), LittleEndian(te.trade.qty, 8), LittleEndian(te.timestamp, 8),
                 WordBytes(Checksum(body)));
    assert m[1..3] == m[..3][1..] == LittleEndian(47, 2);
  }

  /** Exactly what `decode` takes: a message of type 1 whose length field lies within the buffer and whose checksum holds;
      its fields are then those at the offsets of a new order. */
  lemma DecodesExactly(m: seq<byte>)
    requires Framed(m)
    ensures Decode(m).Some? <==>
            && |m| >= 3 && 4 <= FromLittleEndian(m[1..3]) <= |m|
            && m[0] == 0x01 && Sealed(m, FromLittleEndian(m[1..3]))
    ensures Decode(m).Some? ==>
            var w := Decode(m).value;
            && |m| >= 29 && w.id == FromLittleEndian(m[3..11])
            && w.price % 0x1_0000_0000_0000_0000 == FromLittleEndian(m[11..19])
            && w.qty == FromLittleEndian(m[19..27]) && w.side == m[27] && w.typ == m[28]
    ensures Decode(m).Some? ==>
            var w, e := Decode(m).value, Received(Decode(m).value);
            && e.id == w.id && e.price == w.price && e.qty == e.remaining == w.qty && e.state == New
            && (e.side == Buy <==> m[27] == 0) && (e.typ == Limit <==> m[28] == 0)
  {
    hide *;
    DecodeParts(m);
    if |m| >= 3 {
      LengthIs(m);
    }
    if |m| >= 3 && 4 <= MessageLength(m) <= |m| {
      SealedRead(m, MessageLength(m));
    }
    if Decode(m).Some? {
      SignedWrap(FromLittleEndian(m[11..19]));
      ReceivedIs(Decode(m).value);
    }
  }

  lemma ReceivedIs(w: WireOrder)
    ensures var e := Received(w);
            && e.id == w.id && e.price == w.price && e.qty == e.remaining == w.qty && e.state == New
            && (e.side == Buy <==> w.side == 0) && (e.typ == Limit <==> w.typ == 0)
  {
  }

  lemma LengthIs(m: seq<byte>)
    requires |m| >= 3
    ensures MessageLength(m) == FromLittleEndian(m[1..3])
  {
  }

  lemma DecodeParts(m: seq<byte>)
    requires Framed(m)
    ensures Decode(m).Some? <==>
            && |m| >= 3 && 4 <= MessageLength(m) <= |m| && m[0] == 0x01
            && ReadWord(m[MessageLength(m)-4..MessageLength(m)]) == Checksum(m[..MessageLength(m)-4])
    ensures Decode(m).Some? ==>
            && |m| >= 29 && FromLittleEndian(m[11..19]) < 0x1_0000_0000_0000_0000
            && Decode(m).value == WireOrder(FromLittleEndian(m[3..11]), Signed(FromLittleEndian(m[11..19])),
                                            FromLittleEndian(m[19..27]), m[27], m[28])
  {
    if |m| >= 19 {
      Widths();
      FromLittleEndianBound(m[11..19]);
    }
    hide MessageLength, ReadWord, Checksum, FromLittleEndian, Signed;
  }

  lemma SignedWrap(x: int)
    requires 0 <= x < 0x1_0000_0000_0000_0000
    ensures Signed(x) % 0x1_0000_0000_0000_0000 == x
  {
  }

  /** A trade report, whatever follows it in the buffer, is not taken for an order. */
  lemma TradeReportRejected(te: TradeEvent, more: seq<byte>)
    ensures Framed(EncodeTradeReport(te) + more) && Decode(EncodeTradeReport(te) + more) == None
  {
    TradeReportLayout(te);
    var m := EncodeTradeReport(te);
    var all := m + more;
    assert all[1..3] == m[1..3];
    assert MessageLength(all) == 47 && all[0] == 0x03;
    assert Framed(all);
    DecodesExactly(all);
  }

  /** A trade report is not taken for an order. */
  lemma TradeReportIsNoOrder(te: TradeEvent)
    ensures EncodeTradeReport(te)[0] == TRADE_REPORT
  {
  }

  // ---------------------------------------------------------------------------------------------------
  // Error detection

  /** An encoded order whose bytes 3 to 28 were altered: header and checksum are intact. */
  ghost predicate Altered(o: WireOrder, m: seq<byte>) {
    && |m| == NEW_ORDER_SIZE
    && m[..3] == EncodeNewOrder(o)[..3]
    && m[NEW_ORDER_SIZE-4..] == EncodeNewOrder(o)[NEW_ORDER_SIZE-4..]
  }

  ghost predicate SameLanes(a: seq<byte>, b: seq<byte>) {
    Lane(a, 0) == Lane(b, 0) && Lane(a, 1) == Lane(b, 1) && Lane(a, 2) == Lane(b, 2) && Lane(a, 3) == Lane(b, 3)
  }

  /** Exactly when an altered message is accepted: when in every lane the changes cancel out. */
  lemma AcceptedIff(o: WireOrder, m: seq<byte>)
    requires Altered(o, m)
    ensures Framed(m)
    ensures Decode(m).Some? <==> SameLanes(m[..NEW_ORDER_SIZE-4], NewOrderBody(o))
  {
    var body, m' := NewOrderBody(o), m[..NEW_ORDER_SIZE-4];
    var word := WordBytes(Checksum(body));
    EncodedFields(o, word);
    assert EncodeNewOrder(o)[..3] == body[..3] && EncodeNewOrder(o)[NEW_ORDER_SIZE-4..] == word;
    assert m[1..3] == m[..3][1..] == body[..3][1..] == body[1..3] == (body + word)[1..3];
    assert m[0] == m[..3][0] == body[..3][0] == body[0] == (body + word)[0];
    assert m[NEW_ORDER_SIZE-4..NEW_ORDER_SIZE] == word;
    WordRoundTrip(body);
    hide NewOrderBody;
    hide WordBytes;
    hide Lane;
    hide Pack;
    hide FieldsOf;
    PackInjective(Lane(body, 0), Lane(body, 1), Lane(body, 2), Lane(body, 3),
                  Lane(m', 0), Lane(m', 1), Lane(m', 2), Lane(m', 3));
  }

  lemma WindowLanes(a: seq<byte>, b: seq<byte>, w: nat)
    requires |a| == |b| && a != b && forall i :: 0 <= i < |a| && a[i] != b[i] ==> w <= i < w + 4
    ensures !SameLanes(a, b)
  {
    var p :| 0 <= p < |a| && a[p] != b[p];
    OneByteInLane(a, b, p);
    LanesDiffer(a, b, p % 4);
  }

  /** Every alteration confined to four consecutive bytes of the fields is rejected. */
  lemma WindowRejected(o: WireOrder, m: seq<byte>, w: nat)
    requires Altered(o, m) && m != EncodeNewOrder(o)
    requires forall i :: 0 <= i < NEW_ORDER_SIZE && m[i] != EncodeNewOrder(o)[i] ==> w <= i < w + 4
    ensures Framed(m) && Decode(m) == None
  {
    AcceptedIff(o, m);
    var e, body, word := EncodeNewOrder(o), NewOrderBody(o), WordBytes(Checksum(NewOrderBody(o)));
    assert e == body + word && e[NEW_ORDER_SIZE-4..] == word;
    hide *;
    var a := m[..NEW_ORDER_SIZE-4];
    assert m == a + m[NEW_ORDER_SIZE-4..];
    forall i | 0 <= i < |a| && a[i] != body[i]
      ensures w <= i < w + 4
    {
      assert m[i] != e[i];
    }
    WindowLanes(a, body, w);
  }

  lemma LanesDiffer(a: seq<byte>, b: seq<byte>, j: nat)
    requires j < 4 && Lane(a, j) != Lane(b, j)
    ensures !SameLanes(a, b)
  {
  }

  // ---------------------------------------------------------------------------------------------------
  // The codec as it runs

  lemma Sizes()
    ensures NEW_ORDER_SIZE == 33 && TRADE_REPORT_SIZE == 47
  {
  }

  /** Writes a message body and, behind it, the checksum computed over the buffer. */
  method PutSealed(buf: array<byte>, body: seq<byte>)
    requires |body| + 4 <= buf.Length
    modifies buf
    ensures buf[..] == body + WordBytes(Checksum(body)) + old(buf[|body| + 4..])
  {
    hide Checksum;
    hide WordBytes;
    CopyInto(buf, 0, body);
    assert buf[..][..|body|] == body;
    var crc := CalculateChecksum(buf[..], |body|);
    CopyInto(buf, |body|, WordBytes(crc));
  }

  /** `encode_new_order`: writes the message into a buffer that is large enough, and nothing otherwise. */
  method PutNewOrder(buf: array<byte>, o: WireOrder) returns (n: nat)
    modifies buf
    ensures buf.Length < NEW_ORDER_SIZE ==> n == 0 && buf[..] == old(buf[..])
    ensures buf.Length >= NEW_ORDER_SIZE ==>
        n == NEW_ORDER_SIZE && buf[..] == EncodeNewOrder(o) + old(buf[n..]) && buf[..n] == EncodeNewOrder(o)
  {
    if buf.Length < NEW_ORDER_SIZE {
      return 0;
    }
    hide NewOrderBody;
    hide Checksum;
    hide WordBytes;
    PutSealed(buf, NewOrderBody(o));
    n := NEW_ORDER_SIZE;
  }

  /** `encode_trade_report`, likewise. */
  method PutTradeReport(buf: array<byte>, te: TradeEvent) returns (n: nat)
    modifies buf
    ensures buf.Length < TRADE_REPORT_SIZE ==> n == 0 && buf[..] == old(buf[..])
    ensures buf.Length >= TRADE_REPORT_SIZE ==>
        n == TRADE_REPORT_SIZE && buf[..] == EncodeTradeReport(te) + old(buf[n..]) && buf[..n] == EncodeTradeReport(te)
  {
    if buf.Length < TRADE_REPORT_SIZE {
      return 0;
    }
    hide TradeReportBody;
    hide Checksum;
    hide WordBytes;
    PutSealed(buf, TradeReportBody(te));
    n := TRADE_REPORT_SIZE;
  }

  /** `decode`: fills in the order exactly when the message is a new order with a good checksum. */
  method DecodeInto(buf: seq<byte>, out: ObjectPool.Order) returns (ok: bool)
    requires Framed(buf)
    modifies out`id, out`price, out`qty, out`remaining, out`side, out`typ, out`state
    ensures ok == Decode(buf).Some?
    ensures ok ==> out.Value() == Received(Decode(buf).value)
    ensures !ok ==> unchanged(out)
  {
    if |buf| < 3 || |buf| < MessageLength(buf) {
      return false;
    }
    var n := MessageLength(buf);
    var received := ReadWord(buf[n-4..n]);
    var computed := CalculateChecksum(buf, n - 4);
    if received != computed {
      return false;
    }
    if buf[0] == NEW_ORDER {
      out.Assign(Received(FieldsOf(buf)));
      return true;
    }
    return false;
  }
}
