/** The single-producer single-consumer ring buffer: its protocol as interleaved atomic steps with possibly
    stale loads of the other side's index, and the methods as they run alone. */
module RingBuffers {
  import opened Types
  import opened Powers

  /** Bitwise and of naturals. */
  function And(x: nat, y: nat): (r: nat)
    ensures r <= y
    decreases x
  {
    if x == 0 || y == 0 then 0 else (x % 2) * (y % 2) + 2 * And(x / 2, y / 2)
  }

  /** Masking with a power of two minus one is the remainder. */
  lemma {:induction false} MaskIsMod(x: nat, k: nat)
    ensures Pow2(k) > 0 && And(x, Pow2(k) - 1) == x % Pow2(k)
    decreases k
  {
    if k > 0 {
      MaskIsMod(x / 2, k - 1);
      MaskStep(x, Pow2(k - 1));
    }
  }

  lemma MaskStep(x: nat, p: nat)
    requires p > 0 && And(x / 2, p - 1) == (x / 2) % p
    ensures And(x, 2 * p - 1) == x % (2 * p)
  {
    hide And;
    HalveMod(x, p);
    HalveMask(x, p);
  }

  lemma HalveMask(x: nat, p: nat)
    requires p > 0
    ensures And(x, 2 * p - 1) == x % 2 + 2 * And(x / 2, p - 1)
  {
    assert (2 * p - 1) / 2 == p - 1 && (2 * p - 1) % 2 == 1;
    assert x == 0 ==> And(x / 2, p - 1) == 0;
  }

  lemma HalveMod(x: nat, p: nat)
    requires p > 0
    ensures x % (2 * p) == x % 2 + 2 * ((x / 2) % p)
  {
    var q, r := (x / 2) / p, (x / 2) % p;
    assert x / 2 == q * p + r;
    assert x == 2 * (q * p + r) + x % 2;
    assert 2 * (q * p) == q * (2 * p);
    Quotient(x, q, 2 * r + x % 2, 2 * p);
  }

  /** A capacity the class accepts: a power of two that a 64-bit index can count. */
  ghost predicate Capacity(c: nat) {
    exists k :: 0 <= k <= 63 && c == Pow2(k)
  }

  /** It divides 2^64, so that wrapping an index does not change its slot. */
  lemma {:induction false} CapacityDivides(k: nat, n: nat)
    requires k <= n
    ensures Pow2(k) > 0 && exists d: nat :: Pow2(n) == d * Pow2(k)
    decreases n - k
  {
    if k == n {
      PowPositive(k);
      assert Pow2(n) == 1 * Pow2(k);
    } else {
      CapacityDivides(k, n - 1);
      var d: nat :| Pow2(n - 1) == d * Pow2(k);
      assert Pow2(n) == 2 * (d * Pow2(k)) == (2 * d) * Pow2(k);
    }
  }

  /** The slot of an index: `index & (capacity - 1)`. */
  function Slot(index: nat, c: nat): (r: nat)
    requires c > 0
    ensures r < c
  {
    And(index, c - 1)
  }

  /** The place of a count in a buffer of `c` slots. */
  function Place(n: nat, c: nat): (r: nat)
    requires c > 0
    ensures r < c
  {
    n % c
  }

  /** Free-running counts and wrapped indices agree on slots. */
  lemma SlotOfWrapped(n: nat, c: nat)
    requires Capacity(c)
    ensures 0 < c <= I63 && Slot(Wrap(n), c) == Place(n, c)
  {
    var k :| 0 <= k <= 63 && c == Pow2(k);
    MaskIsMod(n % U64, k);
    CapacityDivides(k, 64);
    Pow64();
    PowMonotone(k, 63);
    var d: nat :| Pow2(64) == d * c;
    NestedMultiple(n / U64, d, c);
    DropMultiple(n, n / U64 * d, n % U64, c);
  }

  /** Counts less than a capacity apart use different slots. */
  lemma SlotsApart(i: nat, j: nat, c: nat)
    requires i < j < i + c
    ensures Place(i, c) != Place(j, c)
  {
    if i % c == j % c {
      var a, b := i / c, j / c;
      assert j - i == b * c - a * c == (b - a) * c;
      SmallMultiple(b - a, c);
    }
  }

  /** Unsigned 64-bit subtraction. */
  function Distance(a: u64, b: u64): u64 {
    Wrap(a - b)
  }

  lemma WrappedDistance(n: nat, m: nat)
    ensures Distance(Wrap(n), Wrap(m)) == Wrap(n - m)
  {
    assert n % U64 - m % U64 == (n - m) - (n / U64 - m / U64) * U64;
    DropMultiple(n % U64 - m % U64, m / U64 - n / U64, n - m, U64);
  }

  // ----- The protocol: one producer, one consumer, atomic steps -----

  /** Where the producer stands inside `push`. */
  datatype Producer<T> =
    | Ready
    | Loaded(tail: u64, item: T)   // own index read
    | Checked(tail: u64, item: T)  // not full
    | Stored(tail: u64, item: T)   // slot written, tail not yet published

  /** Where the consumer stands inside `pop`. */
  datatype Consumer<T> =
    | Waiting
    | Loading(head: u64)           // own index read
    | Admitted(head: u64)          // not empty
    | Taken(head: u64, item: T)    // slot read, head not yet published

  /** The shared memory, both program counters, and the history: everything ever published as pushed or popped, how many
      publications of the other side each thread has observed, and for each published pop how many pushes its thread
      had observed by then. */
  datatype Ring<T> = Ring(
    capacity: nat, head: u64, tail: u64, buffer: seq<T>,
    producer: Producer<T>, consumer: Consumer<T>,
    pushed: seq<T>, popped: seq<T>, seenHead: nat, seenTail: nat, witnessed: seq<nat>)
  {
    predicate Shaped() {
      0 < capacity == |buffer|
    }

    /** The abstract queue: published, not yet taken. */
    ghost function Queue(): seq<T>
      requires |popped| <= |pushed|
    {
      pushed[|popped|..]
    }
  }

  function Start<T>(buffer: seq<T>): Ring<T> {
    Ring(|buffer|, 0, 0, buffer, Ready, Waiting, [], [], 0, 0, [])
  }

  /** The atomic steps. A check carries which publication its load of the other side's index returns: an atomic
      load may return an old value, but never one older than the thread has already seen. */
  datatype Action<T> =
    | PushLoad(item: T) | PushCheck(n: nat) | PushStore | PushPublish
    | PopLoad | PopCheck(n: nat) | PopRead | PopPublish

  predicate Enabled<T>(s: Ring<T>, a: Action<T>) {
    && s.Shaped()
    && match a
       case PushLoad(_) => s.producer.Ready?
       case PushCheck(n) => s.producer.Loaded? && s.seenHead <= n <= |s.popped|
       case PushStore => s.producer.Checked?
       case PushPublish => s.producer.Stored?
       case PopLoad => s.consumer.Waiting?
       case PopCheck(n) => s.consumer.Loading? && s.seenTail <= n <= |s.pushed|
       case PopRead => s.consumer.Admitted?
       case PopPublish => s.consumer.Taken?
  }

  /** `push` refuses: the ring looks full. */
  predicate Refuses<T>(s: Ring<T>, n: nat)
    requires s.producer.Loaded?
  {
    Distance(Wrap(s.producer.tail + 1), Wrap(n)) > s.capacity
  }

  /** `pop` refuses: the ring looks empty. */
  predicate Lacks<T>(s: Ring<T>, n: nat)
    requires s.consumer.Loading?
  {
    s.consumer.head == Wrap(n)
  }

  function Next<T>(s: Ring<T>, a: Action<T>): Ring<T>
    requires Enabled(s, a)
  {
    match a
    case PushLoad(item) =>
      s.(producer := Loaded(s.tail, item))
    case PushCheck(n) =>
      s.(seenHead := n, producer := if Refuses(s, n) then Ready else Checked(s.producer.tail, s.producer.item))
    case PushStore =>
      s.(buffer := s.buffer[Slot(s.producer.tail, s.capacity) := s.producer.item],
         producer := Stored(s.producer.tail, s.producer.item))
    case PushPublish =>
      s.(tail := Wrap(s.producer.tail + 1), pushed := s.pushed + [s.producer.item], producer := Ready)
    case PopLoad =>
      s.(consumer := Loading(s.head))
    case PopCheck(n) =>
      s.(seenTail := n, consumer := if Lacks(s, n) then Waiting else Admitted(s.consumer.head))
    case PopRead =>
      s.(consumer := Taken(s.consumer.head, s.buffer[Slot(s.consumer.head, s.capacity)]))
    case PopPublish =>
      s.(head := Wrap(s.consumer.head + 1), popped := s.popped + [s.consumer.item], consumer := Waiting,
         witnessed := s.witnessed + [s.seenTail])
  }

  /** The counts behind the wrapped indices, and how far each side may be ahead of what it knows of the other. */
  ghost predicate Counted<T>(s: Ring<T>) {
    && Capacity(s.capacity) && s.Shaped()
    && s.head == Wrap(|s.popped|) && s.tail == Wrap(|s.pushed|)
    && s.seenHead <= |s.popped| <= s.seenTail <= |s.pushed| <= s.seenHead + s.capacity
  }

  /** Every unpopped item is in its slot, and the popped ones are the first pushed. */
  ghost predicate Stocked<T>(s: Ring<T>)
    requires Counted(s)
  {
    && s.popped == s.pushed[..|s.popped|]
    && forall i :: |s.popped| <= i < |s.pushed| ==> s.buffer[Place(i, s.capacity)] == s.pushed[i]
  }

  /** What each thread may rely on at its program counter. */
  ghost predicate Poised<T>(s: Ring<T>)
    requires Counted(s)
  {
    && (!s.producer.Ready? ==> s.producer.tail == s.tail)
    && (s.producer.Checked? || s.producer.Stored? ==> |s.pushed| < s.seenHead + s.capacity)
    && (s.producer.Stored? ==> s.buffer[Place(|s.pushed|, s.capacity)] == s.producer.item)
    && (!s.consumer.Waiting? ==> s.consumer.head == s.head)
    && (s.consumer.Admitted? || s.consumer.Taken? ==> |s.popped| < s.seenTail)
    && (s.consumer.Taken? ==> s.consumer.item == s.pushed[|s.popped|])
  }

  /** Nobody publishes a pop without having seen the push it answers. */
  ghost predicate Causal<T>(s: Ring<T>) {
    && |s.witnessed| == |s.popped|
    && forall k :: 0 <= k < |s.witnessed| ==> k < s.witnessed[k] <= s.seenTail
  }

  ghost predicate Invariant<T>(s: Ring<T>) {
    Counted(s) && Stocked(s) && Poised(s) && Causal(s)
  }

  /** Both threads hold a slot at once only if the slots differ. */
  lemma NoSlotConflict<T>(s: Ring<T>)
    requires Invariant(s)
    requires s.producer.Checked? || s.producer.Stored?
    requires s.consumer.Admitted? || s.consumer.Taken?
    ensures Slot(s.producer.tail, s.capacity) != Slot(s.consumer.head, s.capacity)
  {
    SlotOfWrapped(|s.pushed|, s.capacity);
    SlotOfWrapped(|s.popped|, s.capacity);
    SlotsApart(|s.popped|, |s.pushed|, s.capacity);
  }

  /** A push is refused exactly when the head it loads is the one it already knew and that leaves no room; with a
      current view, exactly when the queue is full. */
  lemma PushRefusedExactly<T>(s: Ring<T>, n: nat)
    requires Invariant(s) && Enabled(s, PushCheck(n))
    ensures Refuses(s, n) <==> |s.pushed| == n + s.capacity
    ensures Refuses(s, n) ==> n == s.seenHead
    ensures n == |s.popped| ==> (Refuses(s, n) <==> |s.Queue()| == s.capacity)
  {
    hide Wrap, Distance, Stocked;
    SlotOfWrapped(0, s.capacity);
    WrapNext(|s.pushed|);
    WrappedDistance(|s.pushed| + 1, n);
    WrapNext(|s.pushed| + 1 - n);
  }

  /** A pop is refused exactly when the tail it loads is its own head; with a current view, exactly when the queue is
      empty. */
  lemma PopRefusedExactly<T>(s: Ring<T>, n: nat)
    requires Invariant(s) && Enabled(s, PopCheck(n))
    ensures Lacks(s, n) <==> n == |s.popped|
    ensures n == |s.pushed| ==> (Lacks(s, n) <==> s.Queue() == [])
  {
    hide Wrap, Stocked, Causal, Capacity;
    SlotOfWrapped(0, s.capacity);
    WrappedDistance(n, |s.popped|);
    WrapNext(n - |s.popped|);
    WrapNext(0);
  }

  /** Every step keeps the invariant. */
  lemma StepKeeps<T>(s: Ring<T>, a: Action<T>)
    requires Invariant(s) && Enabled(s, a)
    ensures Invariant(Next(s, a))
  {
    hide Wrap, Place, Slot, Refuses, Lacks, Capacity;
    match a
    case PushLoad(_) =>
    case PushCheck(n) => PushRefusedExactly(s, n);
    case PushStore => StoreKeeps(s);
    case PushPublish => WrapNext(|s.pushed|);
    case PopLoad =>
    case PopCheck(n) => PopRefusedExactly(s, n);
    case PopRead => SlotOfWrapped(|s.popped|, s.capacity);
    case PopPublish => WrapNext(|s.popped|);
  }

  /** The slot being written holds no unpopped item. */
  lemma StoreKeeps<T>(s: Ring<T>)
    requires Invariant(s) && Enabled(s, PushStore)
    ensures Invariant(Next(s, PushStore))
  {
    var s' := Next(s, PushStore);
    var c, t := s.capacity, |s.pushed|;
    SlotOfWrapped(t, c);
    forall i | |s.popped| <= i < t
      ensures s'.buffer[Place(i, c)] == s'.pushed[i]
    {
      SlotsApart(i, t, c);
    }
  }

  // ----- Runs: every interleaving refines a bounded FIFO queue -----

  /** What a step shows of the queue. */
  datatype Event<T> = Enqueue(item: T) | Dequeue(item: T) | Full | Empty | Internal

  function EventOf<T>(s: Ring<T>, a: Action<T>): Event<T>
    requires Enabled(s, a)
  {
    match a
    case PushPublish => Enqueue(s.producer.item)
    case PopPublish => Dequeue(s.consumer.item)
    case PushCheck(n) => if Refuses(s, n) then Full else Internal
    case PopCheck(n) => if Lacks(s, n) then Empty else Internal
    case _ => Internal
  }

  /** One step of a FIFO queue bounded by `c`: `None` when a queue could not have done it. */
  ghost function FifoStep<T>(c: nat, q: seq<T>, e: Event<T>): Option<seq<T>> {
    match e
    case Enqueue(x) => if |q| < c then Some(q + [x]) else None
    case Dequeue(x) => if q != [] && q[0] == x then Some(q[1..]) else None
    case _ => Some(q)
  }

  predicate Possible<T>(s: Ring<T>, run: seq<Action<T>>)
    decreases |run|
  {
    run == [] || (Enabled(s, run[0]) && Possible(Next(s, run[0]), run[1..]))
  }

  function After<T>(s: Ring<T>, run: seq<Action<T>>): Ring<T>
    requires Possible(s, run)
    decreases |run|
  {
    if run == [] then s else After(Next(s, run[0]), run[1..])
  }

  function Trace<T>(s: Ring<T>, run: seq<Action<T>>): seq<Event<T>>
    requires Possible(s, run)
    decreases |run|
  {
    if run == [] then [] else [EventOf(s, run[0])] + Trace(Next(s, run[0]), run[1..])
  }

  ghost function Fifo<T>(c: nat, q: seq<T>, trace: seq<Event<T>>): Option<seq<T>>
    decreases |trace|
  {
    if trace == [] then Some(q)
    else
      var step := FifoStep(c, q, trace[0]);
      if step.None? then None else Fifo(c, step.value, trace[1..])
  }

  lemma StepRefines<T>(s: Ring<T>, a: Action<T>)
    requires Invariant(s) && Enabled(s, a) && Invariant(Next(s, a))
    ensures FifoStep(s.capacity, s.Queue(), EventOf(s, a)) == Some(Next(s, a).Queue())
  {
    var s' := Next(s, a);
    if a.PushPublish? {
      assert s'.Queue() == s.Queue() + [s.producer.item];
    } else if a.PopPublish? {
      assert s'.Queue() == s.Queue()[1..];
    } else {
      assert s'.Queue() == s.Queue();
    }
  }

  /** Under every interleaving, wrapped indices and stale loads included, what the two threads do is what a FIFO queue
      bounded by the capacity could have done, one event after the other. */
  lemma {:induction false} RunRefines<T>(s: Ring<T>, run: seq<Action<T>>)
    requires Invariant(s) && Possible(s, run)
    ensures Invariant(After(s, run))
    ensures After(s, run).capacity == s.capacity
    ensures Fifo(s.capacity, s.Queue(), Trace(s, run)) == Some(After(s, run).Queue())
    decreases |run|
  {
    if run != [] {
      StepKeeps(s, run[0]);
      StepRefines(s, run[0]);
      RunRefines(Next(s, run[0]), run[1..]);
    }
  }

  /** From the empty ring: items come out in the order they went in, none lost, none twice, and never more than the
      capacity are outstanding. */
  lemma PoppedIsPrefix<T>(buffer: seq<T>, run: seq<Action<T>>)
    requires Capacity(|buffer|) && Possible(Start(buffer), run)
    ensures
      var s := After(Start(buffer), run);
      s.popped <= s.pushed && |s.pushed| <= |s.popped| + |buffer|
    ensures
      Fifo(|buffer|, [], Trace(Start(buffer), run))
      == var s := After(Start(buffer), run); Some(s.pushed[|s.popped|..])
  {
    SlotOfWrapped(0, |buffer|);
    assert Start(buffer).Queue() == [];
    RunRefines(Start(buffer), run);
  }

  /** No interleaving brings producer and consumer to one slot at the same time. */
  lemma RaceFree<T>(buffer: seq<T>, run: seq<Action<T>>)
    requires Capacity(|buffer|) && Possible(Start(buffer), run)
    requires var p := After(Start(buffer), run).producer; p.Checked? || p.Stored?
    requires var c := After(Start(buffer), run).consumer; c.Admitted? || c.Taken?
    ensures
      var s := After(Start(buffer), run);
      s.Shaped() && Slot(s.producer.tail, |buffer|) != Slot(s.consumer.head, |buffer|)
  {
    SlotOfWrapped(0, |buffer|);
    RunRefines(Start(buffer), run);
    NoSlotConflict(After(Start(buffer), run));
  }

  lemma {:induction false} HistoryGrows<T>(s: Ring<T>, run: seq<Action<T>>)
    requires Possible(s, run)
    ensures s.popped <= After(s, run).popped && s.pushed <= After(s, run).pushed
    decreases |run|
  {
    if run != [] {
      HistoryGrows(Next(s, run[0]), run[1..]);
    }
  }

  /** What the two loads of `size` may return: the `n`-th publication of the head while the ring is at `s`, then the
      `m`-th of the tail when it has come to `s'`. Either may be old; but whoever has seen a pop published has also seen
      every push its thread had seen before. */
  ghost predicate Loads<T>(s: Ring<T>, n: nat, s': Ring<T>, m: nat) {
    && n <= |s.popped| == |s.witnessed| && m <= |s'.pushed|
    && (n > 0 ==> s.witnessed[n - 1] <= m)
  }

  /** The tail loaded is never behind the head loaded. */
  lemma LoadsOrdered<T>(s: Ring<T>, n: nat, s': Ring<T>, m: nat)
    requires Invariant(s) && Loads(s, n, s', m)
    ensures n <= m
  {
  }

  /** `size`, called on any thread while producer and consumer run on from `s` to `s'`: the queue length at the second load,
      too high by the pops the first load missed and too low by the pushes the second one missed. So it is exact if and
      only if it missed as many of one as of the other (modulo 2^64). */
  lemma SizeReports<T>(s: Ring<T>, run: seq<Action<T>>, n: nat, m: nat)
    requires Invariant(s) && Possible(s, run) && Loads(s, n, After(s, run), m)
    ensures
      var s' := After(s, run);
      var missedPops, missedPushes := |s'.popped| - n, |s'.pushed| - m;
      && n <= m && 0 <= missedPops && 0 <= missedPushes && |s'.popped| <= |s'.pushed|
      && m - n == |s'.Queue()| + missedPops - missedPushes
      && Distance(Wrap(m), Wrap(n)) == Wrap(|s'.Queue()| + missedPops - missedPushes)
      && (Distance(Wrap(m), Wrap(n)) == |s'.Queue()| <==> (missedPops - missedPushes) % U64 == 0)
  {
    hide Wrap, Distance, Stocked, Poised, Capacity, After, Possible, Fifo, Trace;
    RunRefines(s, run);
    HistoryGrows(s, run);
    LoadsOrdered(s, n, After(s, run), m);
    var s' := After(s, run);
    SlotOfWrapped(0, s.capacity);
    WrappedDistance(m, n);
    SameRemainder(|s'.Queue()|, |s'.popped| - n - (|s'.pushed| - m));
  }

  lemma SameRemainder(q: nat, d: int)
    requires q < U64
    ensures Wrap(q + d) == q <==> d % U64 == 0
  {
  }

  lemma OneMore<T>(s: Ring<T>, a: Action<T>, rest: seq<Action<T>>)
    requires Enabled(s, a) && Possible(Next(s, a), rest)
    ensures Possible(s, [a] + rest) && After(s, [a] + rest) == After(Next(s, a), rest)
  {
    assert ([a] + rest)[1..] == rest;
  }

  /** One item through a ring of one slot. */
  function ThereAndBack(x: int): seq<Action<int>> {
    [PushLoad(x)] + ([PushCheck(0)] + ([PushStore] + ([PushPublish] +
    ([PopLoad] + ([PopCheck(1)] + ([PopRead] + ([PopPublish] + [])))))))
  }

  /** An input for a wrong size with nothing running in between: the queue is empty again, but an old load of the head makes
      it one. */
  lemma StaleSize(x: int)
    ensures Possible(Start([x]), ThereAndBack(x))
    ensures var s := After(Start([x]), ThereAndBack(x));
            && |s.popped| == |s.pushed| == 1 && Loads(s, 0, s, 1)
            && Distance(Wrap(1), Wrap(0)) == 1
  {
    var s1 := Next(Start([x]), PushLoad(x));
    var s2 := Next(s1, PushCheck(0));
    var s3 := Next(s2, PushStore);
    var s4 := Next(s3, PushPublish);
    var s5 := Next(s4, PopLoad);
    var s6 := Next(s5, PopCheck(1));
    var s7 := Next(s6, PopRead);
    var s8 := Next(s7, PopPublish);
    OneMore(s7, PopPublish, []);
    OneMore(s6, PopRead, [PopPublish] + []);
    OneMore(s5, PopCheck(1), [PopRead] + ([PopPublish] + []));
    OneMore(s4, PopLoad, [PopCheck(1)] + ([PopRead] + ([PopPublish] + [])));
    var pop := [PopLoad] + ([PopCheck(1)] + ([PopRead] + ([PopPublish] + [])));
    OneMore(s3, PushPublish, pop);
    OneMore(s2, PushStore, [PushPublish] + pop);
    OneMore(s1, PushCheck(0), [PushStore] + ([PushPublish] + pop));
    OneMore(Start([x]), PushLoad(x), [PushCheck(0)] + ([PushStore] + ([PushPublish] + pop)));
  }

  /** On the consumer's thread, which knows its own pops: never too high, too low by the pushes the load of the tail missed. */
  lemma SizeForConsumer<T>(s: Ring<T>, m: nat)
    requires Invariant(s) && s.seenTail <= m <= |s.pushed|
    ensures Distance(Wrap(m), s.head) == |s.Queue()| - (|s.pushed| - m)
  {
    SlotOfWrapped(0, s.capacity);
    hide Wrap, Distance;
    WrappedDistance(m, |s.popped|);
    WrapNext(m - |s.popped|);
  }

  /** On the producer's thread, which knows its own pushes: never too low, too high by the pops the load of the head
      missed. */
  lemma SizeForProducer<T>(s: Ring<T>, n: nat)
    requires Invariant(s) && s.seenHead <= n <= |s.popped|
    ensures Distance(s.tail, Wrap(n)) == |s.Queue()| + (|s.popped| - n)
  {
    SlotOfWrapped(0, s.capacity);
    hide Wrap, Distance;
    WrappedDistance(|s.pushed|, n);
    WrapNext(|s.pushed| - n);
  }

  // ----- The class, its methods run one at a time -----

  class RingBuffer<T(0)> {
    const capacity: nat
    const buffer: array<T>
    var head: u64
    var tail: u64

    /** The protocol state these fields are at. */
    ghost var ring: Ring<T>

    ghost predicate Valid()
      reads this, buffer
    {
      && Invariant(ring) && ring.producer.Ready? && ring.consumer.Waiting?
      && ring.capacity == capacity && ring.head == head && ring.tail == tail && ring.buffer == buffer[..]
    }

    /** An empty ring. */
    constructor (capacity: nat)
      requires Capacity(capacity)
      ensures Valid() && fresh(buffer)
      ensures this.capacity == capacity && ring.pushed == ring.popped == []
    {
      SlotOfWrapped(0, capacity);
      this.capacity := capacity;
      var a := new T[capacity];
      buffer := a;
      head, tail := 0, 0;
      ring := Start(a[..]);
    }

    method Push(item: T) returns (ok: bool)
      requires Valid()
      modifies this, buffer
      ensures Valid()
      ensures ok <==> |old(ring.Queue())| < capacity
      ensures ring.Queue() == if ok then old(ring.Queue()) + [item] else old(ring.Queue())
      ensures ring.popped == old(ring.popped)
    {
      hide Wrap, Place, Slot, Capacity, Stocked, Distance;
      var currentTail: u64 := tail;
      StepKeeps(ring, PushLoad(item));
      ring := Next(ring, PushLoad(item));
      var nextTail := Wrap(currentTail + 1);
      PushRefusedExactly(ring, |ring.popped|);
      StepKeeps(ring, PushCheck(|ring.popped|));
      ring := Next(ring, PushCheck(|ring.popped|));
      if Distance(nextTail, head) > capacity {
        return false;
      }
      StepKeeps(ring, PushStore);
      ring := Next(ring, PushStore);
      buffer[Slot(currentTail, capacity)] := item;
      StepKeeps(ring, PushPublish);
      StepRefines(ring, PushPublish);
      ring := Next(ring, PushPublish);
      tail := nextTail;
      return true;
    }

    method Pop() returns (r: Option<T>)
      requires Valid()
      modifies this
      ensures Valid()
      ensures r.Some? <==> old(ring.Queue()) != []
      ensures r.Some? ==> old(ring.Queue()) == [r.value] + ring.Queue()
      ensures r.None? ==> ring.Queue() == old(ring.Queue())
      ensures ring.pushed == old(ring.pushed)
    {
      hide Wrap, Place, Slot, Capacity, Distance, Stocked;
      var currentHead: u64 := head;
      StepKeeps(ring, PopLoad);
      ring := Next(ring, PopLoad);
      PopRefusedExactly(ring, |ring.pushed|);
      StepKeeps(ring, PopCheck(|ring.pushed|));
      ring := Next(ring, PopCheck(|ring.pushed|));
      if currentHead == tail {
        return None;
      }
      StepKeeps(ring, PopRead);
      ring := Next(ring, PopRead);
      var item := buffer[Slot(currentHead, capacity)];
      StepKeeps(ring, PopPublish);
      StepRefines(ring, PopPublish);
      ring := Next(ring, PopPublish);
      head := Wrap(currentHead + 1);
      return Some(item);
    }

    method Size() returns (n: u64)
      requires Valid()
      ensures n == |ring.Queue()|
    {
      var h := head;
      var t := tail;
      SizeForConsumer(ring, |ring.pushed|);
      n := Distance(t, h);
    }

    method IsEmpty() returns (empty: bool)
      requires Valid()
      ensures empty <==> ring.Queue() == []
    {
      var n := Size();
      empty := n == 0;
    }
  }
}
