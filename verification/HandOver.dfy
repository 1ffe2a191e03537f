/** Handing pool indices through the ring instead of messages: the index and scatter variants. */
module HandOver {
  import opened Words
  import opened SpscProtocol

  datatype Variant = Index | Scatter

  const STRIDE: nat := 5
  const UINT32: nat := 0x1_0000_0000

  function PoolSize(cap: nat): nat {
    8 * cap
  }

  /** The pool entry for the item a 64-bit counter numbers `i`, as a 32-bit index. */
  function PoolIndex(v: Variant, i: Word, cap: nat): nat
    requires 0 < cap
  {
    if v.Index? then (i % cap) % UINT32 else (Wrap(i * STRIDE) % PoolSize(cap)) % UINT32
  }

  /** The pool is addressable by uint32_t. */
  ghost predicate PoolFits(cap: nat) {
    Capacity(cap) && PoolSize(cap) <= UINT32
  }

  /** `i` is the producer's item counter; `got` what the consumer read through each index, in order. */
  datatype Hand<P> = Hand(sys: System<nat>, pool: seq<P>, i: Word, got: seq<P>)

  datatype Move<P> =
    | OnRing(a: Action<nat>) // a ring step other than end-of-pop
    | Fill(x: P)             // store anything into the pool entry for item i, as often as it takes
    | Finish                 // read the pool entry through the slot, then pop_end

  /** The producer commits only when slot and pool entry are complete. */
  predicate CanMove<P(==)>(v: Variant, payload: nat -> P, h: Hand<P>, m: Move<P>) {
    var r := h.sys.ring;
    && 0 < |r.buf| && |h.pool| == PoolSize(|r.buf|)
    && var idx := PoolIndex(v, h.i, |r.buf|);
       match m
       case OnRing(a) =>
         && Enabled(r, a) && !a.EndPop?
         && (a.Commit? ==>
               r.buf[r.tail % |r.buf|] == idx < |h.pool| && h.pool[idx] == payload(|h.sys.hist.committed|))
       case Fill(_) => r.producer.Holding? && idx < |h.pool|
       case Finish => Enabled(r, EndPop) && r.buf[r.head % |r.buf|] < |h.pool|
  }

  function Moved<P(==)>(v: Variant, payload: nat -> P, h: Hand<P>, m: Move<P>): Hand<P>
    requires CanMove(v, payload, h, m)
  {
    var r := h.sys.ring;
    match m
    case OnRing(a) => h.(sys := Next(h.sys, a), i := if a.Commit? then Wrap(h.i + 1) else h.i)
    case Fill(x) => h.(pool := h.pool[PoolIndex(v, h.i, |r.buf|) := x])
    case Finish => h.(sys := Next(h.sys, EndPop), got := h.got + [h.pool[r.buf[r.head % |r.buf|]]])
  }

  ghost predicate HandMoves<P>(v: Variant, payload: nat -> P, h: Hand<P>, m: Move<P>, h': Hand<P>) {
    CanMove(v, payload, h, m) && h' == Moved(v, payload, h, m)
  }

  ghost predicate HandRun<P>(cap: nat, v: Variant, payload: nat -> P, moves: seq<Move<P>>, hands: seq<Hand<P>>) {
    && |hands| == |moves| + 1
    && Initial(cap, hands[0].sys) && |hands[0].pool| == PoolSize(cap) && hands[0].i == 0 && hands[0].got == []
    && forall k | 0 <= k < |moves| :: HandMoves(v, payload, hands[k], moves[k], hands[k + 1])
  }

  // Number theory: a stride of 5 walks a power-of-two pool without repeating.

  lemma {:induction false} StrideCancels(k: nat, n: nat, q: int) returns (m: int)
    requires STRIDE * n == Pow2(k) * q
    ensures n == Pow2(k) * m
  {
    if k == 0 {
      m := n;
    } else {
      var p := Pow2(k - 1);
      assert (2 * p) * q == 2 * (p * q);
      StrideIsOdd(n, p * q);
      m := StrideCancels(k - 1, n / 2, q);
      assert (2 * p) * m == 2 * (p * m);
    }
  }

  lemma StrideIsOdd(n: nat, x: int)
    requires STRIDE * n == 2 * x
    ensures n == 2 * (n / 2) && STRIDE * (n / 2) == x
  {
  }

  lemma ScatterIndex(i: nat, cap: nat)
    requires PoolFits(cap)
    ensures 0 < PoolSize(cap) && PoolIndex(Scatter, Wrap(i), cap) == (STRIDE * i) % PoolSize(cap)
  {
    var _ := PoolIsPow2(cap);
    WrapStride(i);
    SlotOfWrap(STRIDE * i, PoolSize(cap));
    Fits32((STRIDE * i) % PoolSize(cap));
  }

  lemma WrapStride(i: nat)
    ensures Wrap(Wrap(i) * STRIDE) == Wrap(STRIDE * i)
  {
    var q, r := i / WORD, i % WORD;
    RemainderUnique(WORD, q * STRIDE + (r * STRIDE) / WORD, (r * STRIDE) % WORD, STRIDE * i);
  }

  lemma Fits32(x: nat)
    requires x < UINT32
    ensures x % UINT32 == x
  {
  }

  lemma PoolIsPow2(cap: nat) returns (k: nat)
    requires PoolFits(cap)
    ensures PoolSize(cap) == Pow2(k) && 0 < cap && Capacity(PoolSize(cap))
  {
    var j: nat :| cap == Pow2(j);
    Pow2Positive(j);
    k := j + 3;
    assert Pow2(j + 1) == 2 * cap && Pow2(j + 2) == 4 * cap;
  }

  lemma StrideNeverMeets(i: nat, j: nat, cap: nat)
    requires PoolFits(cap) && i < j < i + cap
    ensures 0 < PoolSize(cap) && (STRIDE * i) % PoolSize(cap) != (STRIDE * j) % PoolSize(cap)
  {
    var k := PoolIsPow2(cap);
    var pool := PoolSize(cap);
    if (STRIDE * i) % pool == (STRIDE * j) % pool {
      var q := SameRemainder(STRIDE * i, STRIDE * j, pool);
      var m := StrideCancels(k, j - i, q);
      MulGap(pool, m, 1);
      MulGap(pool, 0, m);
    }
  }

  lemma SameRemainder(x: nat, y: nat, d: nat) returns (q: int)
    requires 0 < d && x % d == y % d
    ensures y - x == d * q
  {
    q := y / d - x / d;
  }

  /** Items less than a queue apart never share a pool entry, even where the 64-bit product wraps. */
  lemma PoolIndexInjective(v: Variant, i: nat, j: nat, cap: nat)
    requires PoolFits(cap) && i < j < i + cap
    ensures PoolIndex(v, Wrap(i), cap) < PoolSize(cap)
    ensures PoolIndex(v, Wrap(i), cap) != PoolIndex(v, Wrap(j), cap)
  {
    match v
    case Index => IndexInjective(i, j, cap);
    case Scatter =>
      ScatterIndex(i, cap);
      ScatterIndex(j, cap);
      StrideNeverMeets(i, j, cap);
  }

  lemma IndexInjective(i: nat, j: nat, cap: nat)
    requires PoolFits(cap) && i < j < i + cap
    ensures PoolIndex(Index, Wrap(i), cap) < PoolSize(cap)
    ensures PoolIndex(Index, Wrap(i), cap) != PoolIndex(Index, Wrap(j), cap)
  {
    IndexValue(i, cap);
    IndexValue(j, cap);
    SlotsDistinct(i, j, cap);
  }

  lemma IndexValue(i: nat, cap: nat)
    requires PoolFits(cap)
    ensures 0 < cap && PoolIndex(Index, Wrap(i), cap) == i % cap
  {
    SlotOfWrap(i, cap);
  }

  /** Both places in plain numbers: item i modulo the capacity, or 5 * i modulo eight times the capacity. */
  lemma PoolPlaces(i: nat, cap: nat)
    requires PoolFits(cap)
    ensures 0 < cap && PoolSize(cap) == 8 * cap <= Pow2(32)
    ensures PoolIndex(Index, Wrap(i), cap) == i % cap && PoolIndex(Scatter, Wrap(i), cap) == (5 * i) % (8 * cap)
  {
    assert Pow2(8) == 256;
    Pow2Sum(8, 8);
    Pow2Sum(16, 16);
    IndexValue(i, cap);
    ScatterIndex(i, cap);
  }

  ghost predicate HandInv<P>(cap: nat, v: Variant, payload: nat -> P, h: Hand<P>) {
    Inv(cap, h.sys) && Delivered(cap, v, payload, h)
  }

  ghost predicate Delivered<P>(cap: nat, v: Variant, payload: nat -> P, h: Hand<P>) {
    0 < cap && Carried(cap, v, payload, h.pool, h.i, h.got, h.sys.hist.committed, |h.sys.hist.consumed|)
  }

  /** What holds of the pool, the item counter and the values read, given the indices sent and the number taken. */
  ghost predicate Carried<P>(cap: nat, v: Variant, payload: nat -> P, pool: seq<P>, i: Word, got: seq<P>,
                             log: seq<nat>, d: nat)
    requires 0 < cap
  {
    && |pool| == PoolSize(cap)
    && i == Wrap(|log|)
    && |got| == d && (forall k | 0 <= k < d :: got[k] == payload(k))
    && log == Indices(cap, v, |log|)
    && InPool(pool, log, payload, d)
  }

  /** The indices of the first `n` items, in order. */
  ghost function Indices(cap: nat, v: Variant, n: nat): (s: seq<nat>)
    requires 0 < cap
    ensures |s| == n
  {
    if n == 0 then [] else Indices(cap, v, n - 1) + [PoolIndex(v, Wrap(n - 1), cap)]
  }

  lemma {:induction false} IndicesAt(cap: nat, v: Variant, n: nat, k: nat)
    requires 0 < cap && k < n
    ensures Indices(cap, v, n)[k] == PoolIndex(v, Wrap(k), cap)
  {
    if k < n - 1 {
      IndicesAt(cap, v, n - 1, k);
    }
  }

  /** Items `from`, `from + 1`, ... of `log` still have their payload in the pool. */
  ghost predicate InPool<P>(pool: seq<P>, log: seq<nat>, payload: nat -> P, from: nat) {
    forall k | from <= k < |log| :: log[k] < |pool| && pool[log[k]] == payload(k)
  }

  lemma FillKeeps<P>(cap: nat, v: Variant, payload: nat -> P, h: Hand<P>, x: P)
    requires PoolFits(cap) && Delivered(cap, v, payload, h) && CanMove(v, payload, h, Fill(x)) &&
             |h.sys.ring.buf| == cap
    requires |h.sys.hist.committed| < |h.sys.hist.consumed| + cap
    ensures Delivered(cap, v, payload, Moved(v, payload, h, Fill(x)))
  {
    var log, d := h.sys.hist.committed, |h.sys.hist.consumed|;
    forall k | d <= k < |log|
      ensures log[k] != PoolIndex(v, h.i, cap)
    {
      IndicesAt(cap, v, |log|, k);
      PoolIndexInjective(v, k, |log|, cap);
    }
  }

  lemma InPoolExtends<P>(pool: seq<P>, log: seq<nat>, payload: nat -> P, from: nat, idx: nat)
    requires InPool(pool, log, payload, from) && from <= |log|
    requires idx < |pool| && pool[idx] == payload(|log|)
    ensures InPool(pool, log + [idx], payload, from)
  {
  }

  lemma CommitCarries<P>(cap: nat, v: Variant, payload: nat -> P, pool: seq<P>, i: Word, got: seq<P>, log: seq<nat>,
                         d: nat)
    requires 0 < cap && Carried(cap, v, payload, pool, i, got, log, d) && d <= |log|
    requires PoolIndex(v, i, cap) < |pool| && pool[PoolIndex(v, i, cap)] == payload(|log|)
    ensures Carried(cap, v, payload, pool, Wrap(i + 1), got, log + [PoolIndex(v, i, cap)], d)
  {
    WrapAdd(|log|, 1);
    InPoolExtends(pool, log, payload, d, PoolIndex(v, i, cap));
  }

  lemma ReadCarries<P>(cap: nat, v: Variant, payload: nat -> P, pool: seq<P>, i: Word, got: seq<P>, log: seq<nat>,
                       d: nat)
    requires 0 < cap && Carried(cap, v, payload, pool, i, got, log, d) && d < |log|
    ensures log[d] < |pool| && Carried(cap, v, payload, pool, i, got + [pool[log[d]]], log, d + 1)
  {
  }

  lemma CommitKeeps<P>(cap: nat, v: Variant, payload: nat -> P, h: Hand<P>)
    requires Delivered(cap, v, payload, h) && CanMove(v, payload, h, OnRing(Commit)) && |h.sys.ring.buf| == cap
    requires |h.sys.hist.consumed| <= |h.sys.hist.committed|
    ensures Delivered(cap, v, payload, Moved(v, payload, h, OnRing(Commit)))
  {
    var log, h' := h.sys.hist.committed, Moved(v, payload, h, OnRing(Commit));
    CommitCarries(cap, v, payload, h.pool, h.i, h.got, log, |h.sys.hist.consumed|);
    assert h'.sys.hist == h.sys.hist.(committed := log + [PoolIndex(v, h.i, cap)]);
    assert h' == h.(sys := h'.sys, i := Wrap(h.i + 1));
  }

  lemma QuietKeeps<P>(cap: nat, v: Variant, payload: nat -> P, h: Hand<P>, a: Action<nat>)
    requires Delivered(cap, v, payload, h) && CanMove(v, payload, h, OnRing(a)) && !a.Commit?
    ensures Delivered(cap, v, payload, Moved(v, payload, h, OnRing(a)))
  {
    Unlogged(h.sys, a);
  }

  lemma Unlogged<T>(s: System<T>, a: Action<T>)
    requires 0 < |s.ring.buf| && !a.Commit? && !a.EndPop?
    ensures Next(s, a).hist.committed == s.hist.committed && Next(s, a).hist.consumed == s.hist.consumed
  {
  }

  lemma FinishKeeps<P>(cap: nat, v: Variant, payload: nat -> P, h: Hand<P>)
    requires Delivered(cap, v, payload, h) && CanMove(v, payload, h, Finish) && |h.sys.ring.buf| == cap
    requires |h.sys.hist.consumed| < |h.sys.hist.committed|
    requires h.sys.ring.buf[h.sys.ring.head % cap] == h.sys.hist.committed[|h.sys.hist.consumed|]
    ensures Delivered(cap, v, payload, Moved(v, payload, h, Finish))
  {
    ReadCarries(cap, v, payload, h.pool, h.i, h.got, h.sys.hist.committed, |h.sys.hist.consumed|);
  }

  lemma HandNext<P>(cap: nat, v: Variant, payload: nat -> P, h: Hand<P>, m: Move<P>)
    requires PoolFits(cap) && HandInv(cap, v, payload, h) && CanMove(v, payload, h, m)
    ensures Delivered(cap, v, payload, Moved(v, payload, h, m))
  {
    match m
    case OnRing(a) =>
      if a.Commit? {
        CommitKeeps(cap, v, payload, h);
      } else {
        QuietKeeps(cap, v, payload, h, a);
      }
    case Fill(x) => FillKeeps(cap, v, payload, h, x);
    case Finish =>
      ReaderSlot(cap, h.sys);
      FinishKeeps(cap, v, payload, h);
  }

  /** The slot a reader holds contains the oldest index not yet consumed. */
  lemma ReaderSlot(cap: nat, s: System<nat>)
    requires Inv(cap, s) && s.ring.consumer.Reading?
    ensures |s.hist.consumed| < |s.hist.committed|
    ensures s.ring.buf[s.ring.head % cap] == s.hist.committed[|s.hist.consumed|]
  {
    SlotOfWrap(|s.hist.consumed|, cap);
  }

  lemma {:induction false} HandAlways<P>(cap: nat, v: Variant, payload: nat -> P, moves: seq<Move<P>>,
                                         hands: seq<Hand<P>>, n: nat)
    requires PoolFits(cap) && HandRun(cap, v, payload, moves, hands) && n < |hands|
    ensures HandInv(cap, v, payload, hands[n])
  {
    if n == 0 {
      InvInit(cap, hands[0].sys);
    } else {
      var j := n - 1;
      HandAlways(cap, v, payload, moves, hands, j);
      assert HandMoves(v, payload, hands[j], moves[j], hands[j + 1]);
      HandNext(cap, v, payload, hands[j], moves[j]);
      match moves[j]
      case OnRing(a) => InvNext(cap, hands[j].sys, a);
      case Fill(_) =>
      case Finish => InvNext(cap, hands[j].sys, EndPop);
    }
  }

  /**
    * Under every interleaving the consumer reads, for item k, exactly what the producer filled in for item k, and
    * while both hold a slot the producer is never filling the pool entry the consumer is reading.
    */
  lemma {:induction false} HandOverSafe<P>(cap: nat, v: Variant, payload: nat -> P, moves: seq<Move<P>>,
                                           hands: seq<Hand<P>>, n: nat)
    requires PoolFits(cap) && HandRun(cap, v, payload, moves, hands) && n < |hands|
    ensures var h, r := hands[n], hands[n].sys.ring;
            && |r.buf| == cap > 0
            && |h.got| == |h.sys.hist.consumed| && (forall k | 0 <= k < |h.got| :: h.got[k] == payload(k))
            && (r.consumer.Reading? ==>
                  && r.buf[r.head % cap] < |h.pool|
                  && h.pool[r.buf[r.head % cap]] == payload(|h.got|)
                  && (r.producer.Holding? ==> r.buf[r.head % cap] != PoolIndex(v, h.i, cap)))
  {
    var h, log, d := hands[n], hands[n].sys.hist.committed, |hands[n].sys.hist.consumed|;
    HandAlways(cap, v, payload, moves, hands, n);
    if h.sys.ring.consumer.Reading? {
      ReaderSlot(cap, h.sys);
      if h.sys.ring.producer.Holding? {
        IndicesAt(cap, v, |log|, d);
        PoolIndexInjective(v, d, |log|, cap);
      }
    }
  }

  // One item by itself: all its steps are possible.

  /** The producer, with a slot in hand, fills in the item and writes its index into the slot. */
  lemma {:induction false} ItemFilled<P>(cap: nat, v: Variant, payload: nat -> P, h: Hand<P>)
    requires PoolFits(cap) && HandInv(cap, v, payload, h) && h.sys.ring.producer.Holding?
    ensures var log, idx := h.sys.hist.committed, PoolIndex(v, h.i, cap);
            CanMove(v, payload, h, Fill(payload(|log|))) &&
            var a := Moved(v, payload, h, Fill(payload(|log|)));
            CanMove(v, payload, a, OnRing(WriteSlot(idx))) &&
            var b := Moved(v, payload, a, OnRing(WriteSlot(idx)));
            && b.pool == h.pool[idx := payload(|log|)] && b.i == Wrap(|log|) && b.got == h.got
            && b.sys.hist == h.sys.hist && Enabled(b.sys.ring, Commit) && |b.sys.ring.buf| == cap
            && b.sys.ring.buf[b.sys.ring.tail % cap] == idx
  {
    PlaceInPool(v, |h.sys.hist.committed|, cap);
  }

  /** With slot and entry complete it can commit, and goes on to the next item. */
  lemma {:induction false} ItemSent<P>(cap: nat, v: Variant, payload: nat -> P, h: Hand<P>)
    requires PoolFits(cap) && 0 < |h.sys.ring.buf| == cap && |h.pool| == PoolSize(cap)
    requires h.i == Wrap(|h.sys.hist.committed|) && Enabled(h.sys.ring, Commit)
    requires var idx := PoolIndex(v, h.i, cap);
             idx < |h.pool| && h.pool[idx] == payload(|h.sys.hist.committed|) &&
             h.sys.ring.buf[h.sys.ring.tail % cap] == idx
    ensures CanMove(v, payload, h, OnRing(Commit))
    ensures var log, t := h.sys.hist.committed, Moved(v, payload, h, OnRing(Commit));
            && t.sys.hist.committed == log + [PoolIndex(v, h.i, cap)] && t.pool == h.pool && t.got == h.got
            && t.i == Wrap(|log| + 1) && t.sys.ring.producer.Idle?
  {
    WrapAdd(|h.sys.hist.committed|, 1);
  }

  lemma PlaceInPool(v: Variant, i: nat, cap: nat)
    requires PoolFits(cap)
    ensures 0 < cap && PoolIndex(v, Wrap(i), cap) < PoolSize(cap)
  {
    PoolPlaces(i, cap);
  }

  /** The consumer, with a slot in hand, reads the next item through it and gives the slot back. */
  lemma {:induction false} ItemTaken<P>(cap: nat, v: Variant, payload: nat -> P, h: Hand<P>)
    requires PoolFits(cap) && HandInv(cap, v, payload, h) && h.sys.ring.consumer.Reading?
    ensures CanMove(v, payload, h, Finish)
    ensures var t := Moved(v, payload, h, Finish);
            && t.got == h.got + [payload(|h.got|)] && t.pool == h.pool && t.i == h.i
            && |t.sys.hist.consumed| == |h.sys.hist.consumed| + 1 && t.sys.ring.consumer.Waiting?
  {
    ReaderSlot(cap, h.sys);
  }
}
