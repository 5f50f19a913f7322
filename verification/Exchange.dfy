/** Any sequence of operations on the pointer-level book, from empty. */
module Exchanges {
  import opened Types
  import opened BookSpec
  import opened OrderBooks
  import opened Matching
  import opened BookRuns

  /** One operation, as a caller makes it. The book is left consistent if and only if the operation brings no id in twice. */
  method Apply(book: OrderBook, matcher: MatchingEngine, op: Op, now: u64, clock: Clock, ghost r: Run)
    requires matcher.book == book && book.Valid() && book.Abs() == r.book
    modifies book.Repr()
    ensures book.Abs() == Step(r, op, book.pool.capacity).book
    ensures book.Valid() <==> Legal(r.book, op, book.pool.capacity)
    ensures forall x {:trigger x in book.Repr()} :: x in book.Repr() && x !in old(book.Repr()) ==> fresh(x)
  {
    hide *;
    StepBook(r, op, book.pool.capacity);
    LegalIs(r.book, op, book.pool.capacity);
    match op
    case Submit(e) =>
      var _, _ := matcher.Submit(e, now, clock);
    case Add(id, side, price, qty) =>
      book.RestingIds(id);
      var _ := book.Add(id, side, price, qty, now);
    case Cancel(id) =>
      var _ := matcher.ProcessCancelOrder(id);
    case Modify(id, qty) =>
      var _ := book.Modify(id, qty, now);
  }

  lemma LegalIs(b: Book, op: Op, capacity: nat)
    ensures Legal(b, op, capacity) <==>
            match op
            case Submit(e) => b.Count() >= capacity || StaysDistinct(b, e)
            case Add(id, _, _, _) => b.Count() >= capacity || !Resting(b, id)
            case Cancel(_) => true
            case Modify(_, _) => true
  {
  }

  lemma StepBook(r: Run, op: Op, capacity: nat)
    ensures Step(r, op, capacity).book ==
            match op
            case Submit(e) => SubmitBounded(r.book, e, capacity).book
            case Add(id, side, price, qty) => BookSpec.Add(r.book, id, side, price, qty, capacity)
            case Cancel(id) => Remove(r.book, id)
            case Modify(id, qty) => BookSpec.Modify(r.book, id, qty, capacity)
  {
    hide BookSpec.Submit, Place, Remove;
    match op
    case Cancel(id) =>
      if !Resting(r.book, id) {
        RemoveAbsent(r.book, id);
      }
    case _ =>
  }

  /** Any run of which all but the last operation are known to bring no id in twice. The book is consistent at the end if and
      only if the last one does not either; then the five structures agree, they hold the book of the abstract run, and the
      pool has handed out exactly the orders that rest. */
  method Play(ops: seq<Op>, capacity: nat, times: Clock, clock: Clock) returns (book: OrderBook)
    requires ops != [] ==> LegalRun(ops[..|ops| - 1], capacity)
    ensures book.Abs() == After(ops, capacity).book && book.pool.capacity == capacity
    ensures book.Valid() <==> LegalRun(ops, capacity)
    ensures LegalRun(ops, capacity) ==>
            Invariant(After(ops, capacity), capacity) && book.Size() == book.pool.Used() == book.Abs().Count()
  {
    hide *;
    book := new OrderBook(capacity);
    var matcher := new MatchingEngine(book);
    StartsEmpty(capacity);
    if ops != [] {
      ghost var before := ops[..|ops| - 1];
      assert ops[..0] == [];
      for i := 0 to |ops| - 1
        invariant book.Valid() && fresh(book.Repr())
        invariant book.Abs() == After(ops[..i], capacity).book
      {
        assert before[..i] == ops[..i] && before[..i + 1] == ops[..i + 1] && before[i] == ops[i];
        LegalAt(before, i, capacity);
        Apply(book, matcher, ops[i], times(i), clock, After(ops[..i], capacity));
      }
      LegalLast(ops, capacity);
      Apply(book, matcher, ops[|ops| - 1], times(|ops| - 1), clock, After(before, capacity));
    }
    if LegalRun(ops, capacity) {
      RunKeeps(ops, capacity);
      ghost var _ := book.Size();
    }
  }

  lemma LegalLast(ops: seq<Op>, capacity: nat)
    requires ops != []
    ensures var before := ops[..|ops| - 1];
            && After(ops, capacity) == Step(After(before, capacity), ops[|ops| - 1], capacity)
            && (LegalRun(ops, capacity) <==>
                  LegalRun(before, capacity) && Legal(After(before, capacity).book, ops[|ops| - 1], capacity))
  {
    hide Step, Legal;
  }

  lemma StartsEmpty(capacity: nat)
    ensures After([], capacity).book == EMPTY && LegalRun([], capacity)
  {
  }

  lemma {:induction false} LegalAt(ops: seq<Op>, i: nat, capacity: nat)
    requires LegalRun(ops, capacity) && i < |ops|
    ensures Legal(After(ops[..i], capacity).book, ops[i], capacity)
    ensures After(ops[..i + 1], capacity) == Step(After(ops[..i], capacity), ops[i], capacity)
    decreases |ops|
  {
    hide Step, Legal;
    if i < |ops| - 1 {
      var before := ops[..|ops| - 1];
      LegalAt(before, i, capacity);
      assert before[..i] == ops[..i] && before[..i + 1] == ops[..i + 1];
    } else {
      assert ops[..i + 1] == ops;
    }
  }
}
