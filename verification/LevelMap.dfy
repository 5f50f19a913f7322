/** One side of the book: the ordered map from price to level, best price first. */
module LevelMaps {
  import opened Types
  import opened BookSpec
  import opened Flattening
  import opened ObjectPool
  import opened PriceLevels

  type Queues = map<int, seq<Order>>

  /** Every order standing in some queue. */
  ghost function Queued(qs: Queues): set<Order> {
    set p, i | p in qs && 0 <= i < |qs[p]| :: qs[p][i]
  }

  /** No order stands in two places. */
  ghost predicate Scattered(qs: Queues) {
    forall p, q, i, j {:trigger qs[p][i], qs[q][j]} ::
      p in qs && q in qs && 0 <= i < |qs[p]| && 0 <= j < |qs[q]| && qs[p][i] == qs[q][j] ==> p == q && i == j
  }

  /** Every order stands at its own price, on its own side. */
  ghost predicate Priced(qs: Queues, side: Side)
    reads Queued(qs)`price, Queued(qs)`side
  {
    forall p, i {:trigger qs[p][i]} :: p in qs && 0 <= i < |qs[p]| ==>
      qs[p][i] in Queued(qs) && qs[p][i].price == p && qs[p][i].side == side
  }

  /** The orders of the queues as values. */
  ghost function Contents(qs: Queues): (m: Levels)
    reads Queued(qs)`id, Queued(qs)`price, Queued(qs)`qty, Queued(qs)`remaining, Queued(qs)`side, Queued(qs)`typ, Queued(qs)`state
  {
    map p | p in qs :: Values(qs[p])
  }

  lemma ContentsCoherent(qs: Queues, side: Side)
    requires Priced(qs, side) && forall p :: p in qs ==> qs[p] != []
    ensures Coherent(Contents(qs))
  {
  }

  lemma ContentsPush(qs: Queues, o: Order)
    requires Scattered(qs) && o !in Queued(qs)
    ensures var q := if o.price in qs then qs[o.price] else [];
            Contents(qs[o.price := q + [o]]) == PushOnto(Contents(qs), o.Value()) &&
            Queued(qs[o.price := q + [o]]) == Queued(qs) + {o}
  {
    if o.price !in qs {
      NewQueue(qs, o.price);
      PushQueued(qs[o.price := []], o.price, o);
      assert qs[o.price := []][o.price := [] + [o]] == qs[o.price := [] + [o]];
    } else {
      PushQueued(qs, o.price, o);
    }
    var q := if o.price in qs then qs[o.price] else [];
    assert Values(q + [o]) == Level(Contents(qs), o.price) + [o.Value()];
  }

  /** The queues without the k-th order at price `p`; an emptied queue goes too. */
  ghost function TakenOut(qs: Queues, p: int, k: nat): Queues
    requires p in qs && k < |qs[p]|
  {
    if |qs[p]| == 1 then qs - {p} else qs[p := qs[p][..k] + qs[p][k+1..]]
  }

  lemma ContentsTake(qs: Queues, p: int, k: nat)
    requires p in qs && k < |qs[p]| && Scattered(qs)
    ensures Contents(TakenOut(qs, p, k)) == TakeOut(Contents(qs), p, k)
    ensures Queued(TakenOut(qs, p, k)) == Queued(qs) - {qs[p][k]}
  {
    RemoveQueued(qs, p, k);
    var q := qs[p][..k] + qs[p][k+1..];
    if |qs[p]| == 1 {
      DropQueue(qs[p := q], p);
      assert qs[p := q] - {p} == qs - {p};
    } else {
      assert Values(q) == Values(qs[p])[..k] + Values(qs[p])[k+1..];
    }
  }

  lemma {:induction false} DistinctCount(q: seq<Order>)
    requires forall i, j :: 0 <= i < j < |q| ==> q[i] != q[j]
    ensures |set i | 0 <= i < |q| :: q[i]| == |q|
  {
    if q != [] {
      var front := q[..|q|-1];
      DistinctCount(front);
      assert (set i | 0 <= i < |q| :: q[i]) == (set i | 0 <= i < |front| :: front[i]) + {q[|q|-1]};
    }
  }

  lemma {:induction false} ContentsCount(s: Side, qs: Queues)
    requires Scattered(qs)
    ensures |Flatten(s, Contents(qs))| == |Queued(qs)|
    decreases qs.Keys
  {
    if qs == map[] {
      assert Contents(qs) == map[];
    } else {
      assert forall p :: p in Contents(qs) <==> p in qs;
      assert Contents(qs).Keys == qs.Keys;
      var b := BestPrice(s, qs.Keys);
      var rest := qs - {b};
      ContentsCount(s, rest);
      FlattenUnfold(s, Contents(qs), b);
      assert Contents(rest) == Contents(qs) - {b};
      DistinctCount(qs[b]);
      var here := set i | 0 <= i < |qs[b]| :: qs[b][i];
      SplitQueued(qs, b);
    }
  }

  lemma SplitQueued(qs: Queues, b: int)
    requires b in qs && Scattered(qs)
    ensures var here := set i | 0 <= i < |qs[b]| :: qs[b][i];
            Queued(qs) == here + Queued(qs - {b}) && here !! Queued(qs - {b})
  {
    var here := set i | 0 <= i < |qs[b]| :: qs[b][i];
    forall x | x in Queued(qs)
      ensures x in here + Queued(qs - {b})
    {
      var p, i :| p in qs && 0 <= i < |qs[p]| && qs[p][i] == x;
      if p != b {
        assert (qs - {b})[p][i] == x;
      }
    }
  }

  lemma NewQueue(qs: Queues, p: int)
    requires p !in qs && Scattered(qs)
    ensures Queued(qs[p := []]) == Queued(qs) && Scattered(qs[p := []])
    ensures forall side :: Priced(qs, side) ==> Priced(qs[p := []], side)
  {
    assert forall x :: x in Queued(qs) ==> x in Queued(qs[p := []]) by {
      forall x | x in Queued(qs) ensures x in Queued(qs[p := []]) {
        var q, i :| q in qs && 0 <= i < |qs[q]| && qs[q][i] == x;
        assert qs[p := []][q][i] == x;
      }
    }
  }

  lemma PushQueued(qs: Queues, p: int, o: Order)
    requires p in qs && Scattered(qs) && o !in Queued(qs)
    ensures Queued(qs[p := qs[p] + [o]]) == Queued(qs) + {o} && Scattered(qs[p := qs[p] + [o]])
    ensures Priced(qs, o.side) && o.price == p ==> Priced(qs[p := qs[p] + [o]], o.side)
  {
    var qs' := qs[p := qs[p] + [o]];
    forall x | x in Queued(qs) + {o} ensures x in Queued(qs') {
      if x == o {
        assert qs'[p][|qs[p]|] == o;
      } else {
        var q, i :| q in qs && 0 <= i < |qs[q]| && qs[q][i] == x;
        assert qs'[q][i] == x;
      }
    }
  }

  lemma RemoveQueued(qs: Queues, p: int, k: nat)
    requires p in qs && k < |qs[p]| && Scattered(qs)
    ensures var qs' := qs[p := qs[p][..k] + qs[p][k+1..]];
            Queued(qs') == Queued(qs) - {qs[p][k]} && Scattered(qs') &&
            forall side :: Priced(qs, side) ==> Priced(qs', side)
  {
    var o := qs[p][k];
    var qs' := qs[p := qs[p][..k] + qs[p][k+1..]];
    forall x | x in Queued(qs) - {o} ensures x in Queued(qs') {
      var q, i :| q in qs && 0 <= i < |qs[q]| && qs[q][i] == x;
      assert qs'[q][if q == p && i > k then i - 1 else i] == x;
    }
    forall x | x in Queued(qs') ensures x in Queued(qs) - {o} {
      var q, i :| q in qs' && 0 <= i < |qs'[q]| && qs'[q][i] == x;
      assert x == qs[q][if q == p && i >= k then i + 1 else i];
    }
  }

  lemma DropQueue(qs: Queues, p: int)
    requires p in qs && qs[p] == [] && Scattered(qs)
    ensures Queued(qs - {p}) == Queued(qs) && Scattered(qs - {p})
    ensures forall side :: Priced(qs, side) ==> Priced(qs - {p}, side)
  {
    assert (qs - {p})[p := []] == qs;
    NewQueue(qs - {p}, p);
  }

  class LevelMap {
    const side: Side
    var levels: map<int, PriceLevel>
    ghost var queues: Queues          // what the levels hold
    ghost var nodes: set<PriceLevel>
    ghost var members: set<Order>     // every order queued on this side

    /** The map is consistent, except that the level at price `gap` may be empty. */
    ghost predicate ValidBut(gap: Option<int>)
      reads this, nodes, members`prev, members`next, members`remaining, members`price, members`side
    {
      && (forall n :: n in nodes ==> n.side == side)
      && (forall p :: p in levels <==> p in queues)
      && members == Queued(queues) && Scattered(queues)
      && (forall p :: p in levels ==> levels[p] in nodes && levels[p].price == p && levels[p].queue == queues[p])
      && (forall p :: p in queues && (gap.Some? ==> gap.value != p) ==> queues[p] != [])
      && Priced(queues, side)
      && (forall p :: p in levels ==> levels[p].Valid())
    }

    ghost predicate Valid()
      reads this, nodes, members`prev, members`next, members`remaining, members`price, members`side
    {
      ValidBut(None)
    }

    constructor (side: Side)
      ensures Valid() && this.side == side && levels == map[] && members == {} && nodes == {}
      ensures queues == map[] && Begin() == null
    {
      this.side := side;
      levels, queues, nodes, members := map[], map[], {}, {};
    }

    /** The orders of this side in priority order. */
    ghost function Flat(): seq<Entry>
      reads `queues, `members, members`id, members`price, members`qty, members`remaining, members`side, members`typ, members`state
    {
      if members == Queued(queues) then Flatten(side, Contents(queues)) else []
    }

    /** The level `begin()` points at; null is `end()`. */
    function Begin(): (l: PriceLevel?)
      reads this
    {
      if levels == map[] then null else levels[BestPrice(side, levels.Keys)]
    }

    method NewLevel(p: int) returns (l: PriceLevel)
      ensures fresh(l) && l.Valid() && l.queue == [] && l.price == p && l.side == side
    {
      l := new PriceLevel(side);
      l.price := p;
    }

    /** `operator[]`: the level at `p`, created empty if it is missing. */
    method At(p: int) returns (l: PriceLevel)
      requires Valid()
      modifies `levels, `queues, `nodes
      ensures ValidBut(Some(p)) && members == old(members)
      ensures p in levels && levels == old(levels)[p := l]
      ensures if p in old(levels) then l == old(levels)[p] && queues == old(queues)
              else fresh(l) && queues == old(queues)[p := []]
      ensures nodes == old(nodes) + {l}
    {
      hide PriceLevel.Valid;
      hide PriceLevel.Linked;
      hide Queued;
      hide Scattered;
      if p !in levels {
        l := NewLevel(p);
        NewQueue(queues, p);
        levels := levels[p := l];
        queues := queues[p := []];
        nodes := nodes + {l};
      } else {
        l := levels[p];   // its price is already p
      }
    }

    /** The queues at different prices share no order. */
    lemma Apart(price: int)
      requires price in queues && members == Queued(queues) && Scattered(queues)
      ensures forall i :: 0 <= i < |queues[price]| ==> queues[price][i] in members
      ensures forall p, i {:trigger queues[p][i]} :: p in queues && p != price && 0 <= i < |queues[p]| ==>
                queues[p][i] in members && queues[p][i] !in queues[price]
    {
    }

    /** `push_back` on the level `At` returned. */
    method PushOn(l: PriceLevel, o: Order)
      requires ValidBut(Some(o.price)) && o !in members && o.side == side
      requires o.price in levels && levels[o.price] == l
      modifies `members, `queues, l`head, l`tail, l`queue, l`totalQty, l`orderCount, members`next, o`prev, o`next
      ensures Valid() && members == old(members) + {o}
      ensures queues == old(queues)[o.price := old(queues)[o.price] + [o]]
    {
      hide PriceLevel.Valid;
      hide Queued;
      hide Scattered;
      hide Priced;
      Apart(o.price);
      PushQueued(queues, o.price, o);
      ghost var qs: Queues := queues[o.price := queues[o.price] + [o]];
      queues := qs;
      members := members + {o};
      l.PushBack(o);
      assert forall p :: p in levels ==> levels[p].queue == queues[p] && levels[p].price == p;
      assert forall p :: p in levels ==> levels[p].Valid();
    }

    /** `remove` on the level of `o`, where `o` stands at position `k`. */
    method Detach(l: PriceLevel, o: Order, ghost k: nat)
      requires Valid() && o.price in levels && levels[o.price] == l && k < |l.queue| && l.queue[k] == o
      modifies `members, `queues, l`head, l`tail, l`queue, l`totalQty, l`orderCount, members`prev, members`next
      ensures ValidBut(Some(o.price)) && members == old(members) - {o}
      ensures queues == old(queues)[o.price := old(l.queue)[..k] + old(l.queue)[k+1..]]
    {
      hide PriceLevel.Valid;
      hide Queued;
      hide Scattered;
      hide Priced;
      Apart(o.price);
      RemoveQueued(queues, o.price, k);
      ghost var qs: Queues := queues[o.price := queues[o.price][..k] + queues[o.price][k+1..]];
      queues := qs;
      members := members - {o};
      l.Remove(o, k);
      assert forall p :: p in levels ==> levels[p].queue == queues[p] && levels[p].price == p;
      assert forall p :: p in levels ==> levels[p].Valid();
    }

    method EraseIfEmpty(p: int)
      requires ValidBut(Some(p)) && p in levels
      modifies `levels, `queues
      ensures Valid()
      ensures queues == if old(queues)[p] == [] then old(queues) - {p} else old(queues)
      ensures levels == if old(queues)[p] == [] then old(levels) - {p} else old(levels)
    {
      hide PriceLevel.Valid;
      hide PriceLevel.Linked;
      hide Queued;
      hide Scattered;
      hide Priced;
      var l := levels[p];
      l.ValidLinked();
      if l.Empty() {
        DropQueue(queues, p);
        levels := levels - {p};
        queues := queues - {p};
      }
    }

    /** Takes `fill` off the front order of level `l`. */
    method FillFront(l: PriceLevel, fill: u64)
      requires Valid() && l.price in levels && levels[l.price] == l && l.queue != [] && fill <= l.queue[0].remaining
      modifies l`totalQty, {l.queue[0]}`remaining
      ensures Valid() && l.queue[0].remaining == old(l.queue[0].remaining) - fill
    {
      hide PriceLevel.Valid;
      hide Queued;
      hide Scattered;
      hide Priced;
      Apart(l.price);
      l.FillHead(fill);
      assert forall p :: p in levels ==> levels[p].Valid();
    }

    /** `levels[o.price].push_back(o)` */
    method Append(o: Order)
      requires Valid() && o !in members && o.side == side
      modifies `levels, `queues, `nodes, `members, nodes`head, nodes`tail, nodes`queue, nodes`totalQty, nodes`orderCount
      modifies members`next, o`prev, o`next
      ensures Valid() && members == old(members) + {o}
      ensures queues == old(Appended(o))
      ensures forall n :: n in nodes ==> n in old(nodes) || fresh(n)
      ensures o.price in levels && forall p :: p in old(levels) ==> p in levels && levels[p] == old(levels[p])
      ensures forall p :: p in levels ==> p == o.price || p in old(levels)
    {
      hide PriceLevel.Valid;
      hide Queued;
      hide Scattered;
      hide Priced;
      var l := At(o.price);
      PushOn(l, o);
    }

    /** The queues with `o` appended at its price. */
    ghost function Appended(o: Order): Queues
      reads `queues, o`price
    {
      queues[o.price := (if o.price in queues then queues[o.price] else []) + [o]]
    }

    lemma FlatAfterPush(o: Order)
      requires Valid() && o !in members && o.side == side
      ensures Flatten(side, Contents(Appended(o))) == Insert(side, Flat(), o.Value())
      ensures Queued(Appended(o)) == members + {o}
    {
      ContentsCoherent(queues, side);
      ContentsPush(queues, o);
      FlattenInsert(side, Contents(queues), o.Value());
    }

    /** `Append` as a step of the priority list: the order joins the side in price-time order. */
    method PushBack(o: Order)
      requires Valid() && o !in members && o.side == side
      modifies `levels, `queues, `nodes, `members, nodes`head, nodes`tail, nodes`queue, nodes`totalQty, nodes`orderCount
      modifies members`next, o`prev, o`next
      ensures Valid() && members == old(members) + {o}
      ensures forall n :: n in nodes ==> n in old(nodes) || fresh(n)
      ensures old(Begin()) != null ==> old(Begin()).price in levels && levels[old(Begin()).price] == old(Begin())
      ensures old(Begin()) != null && !Better(side, o.price, old(Begin()).price) ==> Begin() == old(Begin())
      ensures Flat() == Insert(side, old(Flat()), o.Value())
    {
      hide ValidBut;
      hide Queued;
      hide Flatten;
      hide Contents;
      hide Insert;
      FlatAfterPush(o);
      BeginIsBest();
      ghost var qs, m := Appended(o), Contents(Appended(o));
      Append(o);
      assert Contents(qs) == m && o.Value() == old(o.Value());
      assert Flat() == Flatten(side, m);
      BeginIsBest();
    }

    /** `begin()` is the one level no other level is ahead of. */
    lemma BeginIsBest()
      requires Valid()
      ensures Begin() == null <==> levels == map[]
      ensures Begin() != null ==> Begin().price in levels && levels[Begin().price] == Begin()
      ensures forall p :: p in levels ==>
          (levels[p] == Begin() <==> forall q :: q in levels ==> !Better(side, q, p))
    {
      if levels != map[] {
        var b := BestPrice(side, levels.Keys);
        assert levels[b].price == b;
        forall p | p in levels
          ensures levels[p] == Begin() <==> forall q :: q in levels ==> !Better(side, q, p)
        {
          assert levels[p].price == p;
        }
      }
    }

    /** Where `o` stands. */
    ghost function Position(o: Order): (k: nat)
      requires Valid() && o in members
      reads this, nodes, members
      ensures o.price in queues && o.price in levels && k < |queues[o.price]| && queues[o.price][k] == o
    {
      var p, i :| p in queues && 0 <= i < |queues[p]| && queues[p][i] == o;
      i
    }

    /** `remove` from the level of `o`, and `erase` of the level if that empties it. */
    method Unlink(o: Order, ghost k: nat)
      requires Valid() && o in members
      requires o.price in queues && o.price in levels && k < |queues[o.price]| && queues[o.price][k] == o
      modifies `members, `queues, `levels, nodes`head, nodes`tail, nodes`queue, nodes`totalQty, nodes`orderCount
      modifies members`prev, members`next
      ensures Valid() && members == old(members) - {o}
      ensures queues == TakenOut(old(queues), o.price, k)
      ensures forall p :: p in levels ==> p in old(levels) && levels[p] == old(levels[p])
    {
      var l := levels[o.price];
      assert l in nodes && l.queue == queues[o.price];
      hide PriceLevel.Valid;
      hide Queued;
      hide Scattered;
      hide Priced;
      Detach(l, o, k);
      EraseIfEmpty(o.price);
    }

    /** `Unlink`, told as what the priority list becomes. */
    method Extract(o: Order, ghost k: nat)
      requires Valid() && o in members
      requires o.price in queues && o.price in levels && k < |queues[o.price]| && queues[o.price][k] == o
      modifies `members, `queues, `levels, nodes`head, nodes`tail, nodes`queue, nodes`totalQty, nodes`orderCount
      modifies members`prev, members`next
      ensures Valid() && members == old(members) - {o}
      ensures Flat() == Flatten(side, old(Contents(TakenOut(queues, o.price, k))))
    {
      hide *;
      TakenOutQueued(o, k);
      ghost var qs := TakenOut(queues, o.price, k);
      ghost var m := Contents(qs);
      Unlink(o, k);
      assert Contents(qs) == m;
      FlatIs();
    }

    lemma FlatIs()
      requires Valid()
      ensures Flat() == Flatten(side, Contents(queues)) && members == Queued(queues)
    {
    }

    lemma TakenOutQueued(o: Order, k: nat)
      requires Valid() && o in members
      requires o.price in queues && k < |queues[o.price]| && queues[o.price][k] == o
      ensures Queued(TakenOut(queues, o.price, k)) == members - {o}
    {
      ContentsTake(queues, o.price, k);
    }

    /** The orders of a side with pairwise different ids. */
    lemma IdsUnique()
      requires Valid() && forall o, x :: o in members && x in members && o.id == x.id ==> o == x
      ensures UniqueIds(Contents(queues))
    {
      forall p, q, i, j | p in queues && q in queues && 0 <= i < |queues[p]| && 0 <= j < |queues[q]|
                          && queues[p][i].id == queues[q][j].id
        ensures p == q && i == j
      {
        assert queues[p][i] in members && queues[q][j] in members;
      }
    }

    /** Which orders the priority list holds. */
    lemma FlatMembers(id: int)
      requires Valid()
      ensures HasId(Flat(), id) <==> exists o :: o in members && o.id == id
    {
      var m := Contents(queues);
      if HasId(Flat(), id) {
        var i :| 0 <= i < |Flat()| && Flat()[i].id == id;
        FlattenMembers(side, m, Flat()[i]);
        var p :| p in m && Flat()[i] in m[p];
        var j :| 0 <= j < |m[p]| && m[p][j] == Flat()[i];
        assert queues[p][j] in members && queues[p][j].id == id;
      }
      if o :| o in members && o.id == id {
        var p, j :| p in queues && 0 <= j < |queues[p]| && queues[p][j] == o;
        assert m[p][j] == o.Value();
        FlattenMembers(side, m, o.Value());
        assert exists i :: 0 <= i < |Flat()| && Flat()[i] == o.Value();
      }
    }

    lemma FlatEntry(e: Entry)
      requires Valid()
      ensures e in Flat() ==> exists o :: o in members && o.Value() == e
    {
      var m := Contents(queues);
      if e in Flat() {
        FlattenMembers(side, m, e);
        var p :| p in m && e in m[p];
        var j :| 0 <= j < |m[p]| && m[p][j] == e;
        assert queues[p][j] in members && queues[p][j].Value() == e;
      }
    }

    /** The priority list has one entry for each order. */
    lemma FlatCount()
      requires Valid()
      ensures |Flat()| == |members|
    {
      ContentsCount(side, queues);
    }

    /** Removing one order from the queues removes its id from the priority list. */
    lemma FlatAfterTake(o: Order)
      requires Valid() && o in members && UniqueIds(Contents(queues))
      ensures var qs := TakenOut(queues, o.price, Position(o));
              Flatten(side, Contents(qs)) == Without(Flat(), o.id) && Queued(qs) == members - {o}
    {
      var k := Position(o);
      ContentsCoherent(queues, side);
      ContentsTake(queues, o.price, k);
      FlattenTakeOut(side, Contents(queues), o.price, k);
    }

    lemma MemberSide()
      requires Valid()
      ensures forall o :: o in members ==> o.side == side
    {
    }

    /** A side none of whose objects changed is as it was. */
    twostate lemma Untouched()
      requires old(Valid())
      requires unchanged(this) && unchanged(old(nodes)) && unchanged(old(members))
      ensures Valid() && Flat() == old(Flat()) && Begin() == old(Begin())
    {
    }

    lemma FlatEmpty()
      requires queues == map[] && members == {}
      ensures Flat() == []
    {
      assert Contents(queues) == map[];
    }

    lemma FlatAt(b: int)
      requires members == Queued(queues) && b in queues && forall p :: p in queues ==> !Better(side, p, b)
      ensures Flat() == Values(queues[b]) + Flatten(side, Contents(queues - {b}))
    {
      assert Contents(queues - {b}) == Contents(queues) - {b};
      FlattenUnfold(side, Contents(queues), b);
    }

    /** The best level starts the priority list. */
    lemma FlatFront() returns (l: PriceLevel, rest: Queues)
      requires Valid() && levels != map[]
      ensures l == Begin() && l.price in levels && levels[l.price] == l && l in nodes && l.price in queues
      ensures l.queue != [] && l.queue == queues[l.price] && l.head == l.queue[0]
      ensures l.queue[0] in members && l.queue[0].price == l.price && l.queue[0].side == side
      ensures rest == queues - {l.price} && forall i :: 0 <= i < |l.queue| ==> l.queue[i] !in Queued(rest)
      ensures members == Queued(queues) && Queued(rest) <= members
      ensures forall i :: 0 < i < |l.queue| ==> l.queue[i] != l.queue[0]
      ensures Flat() == Values(l.queue) + Flatten(side, Contents(rest))
      ensures forall p :: p in queues ==> !Better(side, p, l.price)
    {
      assert forall p :: p in Contents(queues) <==> p in levels;
      var b := BestPrice(side, levels.Keys);
      l := levels[b];
      assert l in nodes && l.price == b && l.queue == queues[b];
      assert l.Linked();
      l.QueueDistinct();
      rest := queues - {b};
      FlatAt(b);
    }

    /** The emptiness and the best price of the side, as its priority list tells them. */
    lemma FlatHead()
      requires Valid()
      ensures levels == map[] <==> Flat() == []
      ensures levels != map[] ==> Begin() != null && Flat()[0].price == Begin().price
    {
      if levels == map[] {
        assert forall p :: p !in queues;
        assert queues == map[];
        FlatEmpty();
      } else {
        var l, _ := FlatFront();
      }
    }

    /** Taking the front order off the best level takes the first order off the list. */
    lemma FlatAfterPop()
      requires Valid() && levels != map[]
      ensures Begin() != null && Begin().price in queues && queues[Begin().price] != [] && Flat() != []
      ensures var qs := TakenOut(queues, Begin().price, 0);
              Flatten(side, Contents(qs)) == Flat()[1..] && Queued(qs) == members - {queues[Begin().price][0]}
    {
      assert forall p :: p in Contents(queues) <==> p in levels;
      var b := BestPrice(side, levels.Keys);
      assert levels[b].price == b && levels[b].queue == queues[b];
      ContentsTake(queues, b, 0);
      FlattenPop(side, Contents(queues), b);
    }

    /** Fills part or all of the front order of level `l`; the other queues keep their values. */
    method Settle(l: PriceLevel, passive: Order, fill: u64, ghost rest: Queues)
      requires Valid() && l.price in levels && levels[l.price] == l && l.queue != [] && passive == l.queue[0]
      requires l.head == passive && fill <= passive.remaining && passive !in Queued(rest) && Queued(rest) <= members
      requires forall i :: 0 < i < |l.queue| ==> l.queue[i] != passive
      modifies l`totalQty, {passive}`remaining, {passive}`state
      ensures Valid() && passive.remaining == old(passive.remaining) - fill
      ensures passive.state == StateAfter(passive.remaining)
      ensures Values(l.queue) == [passive.Value()] + old(Values(l.queue))[1..]
      ensures Contents(rest) == old(Contents(rest))
    {
      hide ValidBut;
      hide Contents;
      hide Queued;
      ghost var front := Values(l.queue);
      FillFront(l, fill);
      passive.state := StateAfter(passive.remaining);
      assert forall i :: 0 < i < |l.queue| ==> l.queue[i].Value() == old(l.queue[i].Value());
      assert Values(l.queue) == [passive.Value()] + front[1..];
    }

    /** A trade replaces the first order of the priority list by what is left of it. */
    method Trade(l: PriceLevel, passive: Order, fill: u64)
      requires Valid() && levels != map[] && l == Begin() && passive == l.head && fill <= passive.remaining
      modifies l`totalQty, {passive}`remaining, {passive}`state
      ensures Valid() && passive.remaining == old(passive.remaining) - fill
      ensures passive.state == StateAfter(passive.remaining)
      ensures old(Flat()) != [] && old(Flat())[0] == old(passive.Value())
      ensures Flat() == [passive.Value()] + old(Flat())[1..]
    {
      hide *;
      ghost var _, rest := FlatFront();
      Settle(l, passive, fill, rest);
      FlatAt(l.price);
    }
  }
}
