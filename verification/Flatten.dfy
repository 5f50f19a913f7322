/** From sorted levels of FIFO queues to one priority list: what each change of the levels does to the list. */
module Flattening {
  import opened Types
  import opened BookSpec

  type Levels = map<int, seq<Entry>>

  lemma {:induction false} BestExists(s: Side, keys: set<int>)
    requires keys != {}
    ensures exists k :: k in keys && forall j :: j in keys ==> !Better(s, j, k)
  {
    if forall x :: x !in keys {
      assert false;
    }
    var x :| x in keys;
    var others := keys - {x};
    if others == {} {
      assert forall j :: j in keys ==> j == x || j in others;
    } else {
      BestExists(s, others);
      var k :| k in others && forall j :: j in others ==> !Better(s, j, k);
      var best := if Better(s, x, k) then x else k;
      assert forall j :: j in keys ==> j == x || j in others;
      assert best in keys && forall j :: j in keys ==> !Better(s, j, best);
    }
  }

  /** The key `begin()` points at. */
  function BestPrice(s: Side, keys: set<int>): (k: int)
    requires keys != {}
    ensures k in keys && forall j :: j in keys ==> !Better(s, j, k)
  {
    BestExists(s, keys);
    var k :| k in keys && forall j :: j in keys ==> !Better(s, j, k);
    k
  }

  /** Every level is non-empty and holds orders of its own price. */
  ghost predicate Coherent(m: Levels) {
    forall p :: p in m ==> m[p] != [] && forall i :: 0 <= i < |m[p]| ==> m[p][i].price == p
  }

  ghost predicate UniqueIds(m: Levels) {
    forall p, q, i, j :: p in m && q in m && 0 <= i < |m[p]| && 0 <= j < |m[q]| && m[p][i].id == m[q][j].id
      ==> p == q && i == j
  }

  ghost function Flatten(s: Side, m: Levels): seq<Entry>
    decreases m.Keys
  {
    if m == map[] then []
    else
      var b := BestPrice(s, m.Keys);
      m[b] + Flatten(s, m - {b})
  }

  lemma FlattenUnfold(s: Side, m: Levels, b: int)
    requires b in m && forall j :: j in m ==> !Better(s, j, b)
    ensures Flatten(s, m) == m[b] + Flatten(s, m - {b})
  {
    assert BestPrice(s, m.Keys) == b;
  }

  /** Changing the best level changes the front of the list. */
  lemma FlattenFront(s: Side, m: Levels, b: int, q: seq<Entry>)
    requires b in m && forall j :: j in m ==> !Better(s, j, b)
    ensures Flatten(s, m[b := q]) == q + Flatten(s, m - {b})
  {
    FlattenUnfold(s, m[b := q], b);
    assert m[b := q] - {b} == m - {b};
  }

  lemma {:induction false} FlattenMembers(s: Side, m: Levels, e: Entry)
    ensures e in Flatten(s, m) <==> exists p :: p in m && e in m[p]
    decreases m.Keys
  {
    if m != map[] {
      var b := BestPrice(s, m.Keys);
      FlattenMembers(s, m - {b}, e);
      assert forall p :: p in m ==> p == b || (p in m - {b} && (m - {b})[p] == m[p]);
      assert forall p :: p in m - {b} ==> p in m && (m - {b})[p] == m[p];
    }
  }

  lemma {:induction false} InsertAfter(s: Side, a: seq<Entry>, l: seq<Entry>, e: Entry)
    requires forall i :: 0 <= i < |a| ==> !Better(s, e.price, a[i].price)
    ensures Insert(s, a + l, e) == a + Insert(s, l, e)
  {
    if a == [] {
      assert a + l == l;
    } else {
      InsertAfter(s, a[1..], l, e);
      assert (a + l)[1..] == a[1..] + l;
      assert a + Insert(s, l, e) == [a[0]] + (a[1..] + Insert(s, l, e));
    }
  }

  function Level(m: Levels, p: int): seq<Entry> {
    if p in m then m[p] else []
  }

  lemma {:induction false} FlattenFirst(s: Side, m: Levels)
    requires Coherent(m) && m != map[]
    ensures Flatten(s, m) != [] && Flatten(s, m)[0].price == BestPrice(s, m.Keys)
  {
    var b := BestPrice(s, m.Keys);
    assert m[b] != [] && m[b][0].price == b;
  }

  /** The levels with `e` pushed to the back of its level, created if need be. */
  function PushOnto(m: Levels, e: Entry): Levels {
    m[e.price := Level(m, e.price) + [e]]
  }

  lemma FlattenInsertAhead(s: Side, m: Levels, e: Entry)
    requires Coherent(m) && (m == map[] || Better(s, e.price, BestPrice(s, m.Keys)))
    ensures Flatten(s, PushOnto(m, e)) == Insert(s, Flatten(s, m), e)
  {
    if m != map[] {
      FlattenFirst(s, m);
    }
    assert e.price !in m;
    FlattenUnfold(s, PushOnto(m, e), e.price);
    assert PushOnto(m, e) - {e.price} == m;
  }

  lemma InsertBetween(s: Side, front: seq<Entry>, rest: seq<Entry>, e: Entry)
    requires forall i :: 0 <= i < |front| ==> !Better(s, e.price, front[i].price)
    requires rest == [] || Better(s, e.price, rest[0].price)
    ensures Insert(s, front + rest, e) == (front + [e]) + rest
  {
    InsertAfter(s, front, rest, e);
    assert front + ([e] + rest) == (front + [e]) + rest;
  }

  lemma FlattenRest(s: Side, m: Levels)
    requires Coherent(m) && m != map[]
    ensures var b := BestPrice(s, m.Keys);
            var rest := Flatten(s, m - {b});
            Flatten(s, m) == m[b] + rest && (rest == [] || Better(s, b, rest[0].price))
  {
    var b := BestPrice(s, m.Keys);
    if m - {b} != map[] {
      FlattenFirst(s, m - {b});
    }
  }

  lemma FlattenInsertHere(s: Side, m: Levels, e: Entry)
    requires Coherent(m) && m != map[] && e.price == BestPrice(s, m.Keys)
    ensures Flatten(s, PushOnto(m, e)) == Insert(s, Flatten(s, m), e)
  {
    hide Insert;
    hide Flatten;
    FlattenRest(s, m);
    FlattenFront(s, m, e.price, m[e.price] + [e]);
    InsertBetween(s, m[e.price], Flatten(s, m - {e.price}), e);
  }

  /** Pushing an order to the back of its level inserts it in price-time order. */
  lemma {:induction false} FlattenInsert(s: Side, m: Levels, e: Entry)
    requires Coherent(m)
    ensures Flatten(s, PushOnto(m, e)) == Insert(s, Flatten(s, m), e)
    decreases m.Keys
  {
    if m == map[] || Better(s, e.price, BestPrice(s, m.Keys)) {
      FlattenInsertAhead(s, m, e);
    } else if e.price == BestPrice(s, m.Keys) {
      FlattenInsertHere(s, m, e);
    } else {
      var b := BestPrice(s, m.Keys);
      FlattenUnfold(s, PushOnto(m, e), b);
      FlattenInsert(s, m - {b}, e);
      assert PushOnto(m, e) - {b} == PushOnto(m - {b}, e);
      InsertAfter(s, m[b], Flatten(s, m - {b}), e);
    }
  }

  lemma {:induction false} WithoutConcat(a: seq<Entry>, l: seq<Entry>, id: int)
    ensures Without(a + l, id) == Without(a, id) + Without(l, id)
  {
    if a == [] {
      assert a + l == l;
    } else {
      WithoutConcat(a[1..], l, id);
      assert (a + l)[1..] == a[1..] + l;
    }
  }

  lemma WithoutOne(e: Entry)
    ensures Without([e], e.id) == []
  {
  }

  lemma ApartFrom(l: seq<Entry>, k: nat, a: seq<Entry>, c: seq<Entry>)
    requires k < |l| && forall i :: 0 <= i < |l| && l[i].id == l[k].id ==> i == k
    requires a == l[..k] && c == l[k+1..]
    ensures forall i :: 0 <= i < |a| ==> a[i].id != l[k].id
    ensures forall i :: 0 <= i < |c| ==> c[i].id != l[k].id
  {
  }

  lemma SplitAt(l: seq<Entry>, k: nat)
    requires k < |l|
    ensures l == l[..k] + ([l[k]] + l[k+1..])
  {
  }

  lemma WithoutAt(l: seq<Entry>, k: nat)
    requires k < |l| && forall i :: 0 <= i < |l| && l[i].id == l[k].id ==> i == k
    ensures Without(l, l[k].id) == l[..k] + l[k+1..]
  {
    ApartFrom(l, k, l[..k], l[k+1..]);
    SplitAt(l, k);
    WithoutAround(l[..k], l[k], l[k+1..]);
  }

  lemma WithoutAround(a: seq<Entry>, e: Entry, c: seq<Entry>)
    requires forall i :: 0 <= i < |a| ==> a[i].id != e.id
    requires forall i :: 0 <= i < |c| ==> c[i].id != e.id
    ensures Without(a + ([e] + c), e.id) == a + c
  {
    hide Without;
    WithoutConcat(a, [e] + c, e.id);
    WithoutConcat([e], c, e.id);
    WithoutOne(e);
    WithoutAbsent(a, e.id);
    WithoutAbsent(c, e.id);
    assert [] + c == c;
  }

  /** The levels with the k-th order of level `p` taken out, and the level too when that empties it. */
  function TakeOut(m: Levels, p: int, k: nat): Levels
    requires p in m && k < |m[p]|
  {
    if |m[p]| == 1 then m - {p} else m[p := m[p][..k] + m[p][k+1..]]
  }

  /** Taking the front order out of the best level takes the first order off the list. */
  lemma FlattenPop(s: Side, m: Levels, b: int)
    requires b in m && m[b] != [] && forall j :: j in m ==> !Better(s, j, b)
    ensures Flatten(s, m) != [] && Flatten(s, TakeOut(m, b, 0)) == Flatten(s, m)[1..]
  {
    FlattenUnfold(s, m, b);
    if |m[b]| == 1 {
      assert TakeOut(m, b, 0) == m - {b};
    } else {
      assert m[b][..0] + m[b][0+1..] == m[b][1..];
      FlattenFront(s, m, b, m[b][1..]);
    }
  }

  lemma {:induction false} FlattenAbsent(s: Side, m: Levels, id: int)
    requires forall p, i :: p in m && 0 <= i < |m[p]| ==> m[p][i].id != id
    ensures Without(Flatten(s, m), id) == Flatten(s, m)
  {
    forall i | 0 <= i < |Flatten(s, m)|
      ensures Flatten(s, m)[i].id != id
    {
      FlattenMembers(s, m, Flatten(s, m)[i]);
    }
    WithoutAbsent(Flatten(s, m), id);
  }

  /** Taking an order out of its level removes its id from the list. */
  lemma {:induction false} FlattenTakeOut(s: Side, m: Levels, p: int, k: nat)
    requires Coherent(m) && UniqueIds(m) && p in m && k < |m[p]|
    ensures Flatten(s, TakeOut(m, p, k)) == Without(Flatten(s, m), m[p][k].id)
    decreases m.Keys
  {
    var id := m[p][k].id;
    var b := BestPrice(s, m.Keys);
    var rest := m - {b};
    WithoutConcat(m[b], Flatten(s, rest), id);
    if p == b {
      WithoutAt(m[p], k);
      FlattenAbsent(s, rest, id);
      FlattenFront(s, m, b, m[p][..k] + m[p][k+1..]);
    } else {
      WithoutAbsent(m[b], id);
      FlattenTakeOut(s, rest, p, k);
      FlattenUnfold(s, TakeOut(m, p, k), b);
      assert TakeOut(m, p, k) - {b} == TakeOut(rest, p, k);
    }
  }
}
