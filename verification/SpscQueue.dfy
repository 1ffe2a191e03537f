/**
  * The ring queues as objects. Each method is the corresponding run of SpscProtocol steps with loads that return the
  * current index, which is how one thread that both pushes and pops sees them.
  */
module SpscQueue {
  import opened Words
  import opened SpscProtocol

  class CachedQueue<T(0)> {
    const buf: array<T>
    var head: Word
    var cachedTail: Word
    var tail: Word
    var cachedHead: Word
    ghost var producer: Producer
    ghost var consumer: Consumer
    ghost var hist: History<T>

    ghost function Snapshot(): System<T>
      reads this, buf
    {
      System(Ring(head, cachedTail, tail, cachedHead, buf[..], producer, consumer), hist)
    }

    ghost predicate Valid()
      reads this, buf
    {
      Inv(buf.Length, Snapshot())
    }

    /** The messages in the queue, oldest first. */
    ghost function Contents(): seq<T>
      requires Valid()
      reads this, buf
    {
      hist.committed[|hist.consumed|..]
    }

    ghost function Room(): nat
      requires Valid()
      reads this, buf
    {
      buf.Length - |Contents()|
    }

    /** Between calls, without a borrowed slot on either side. */
    ghost predicate AtRest()
      reads this
    {
      producer.Idle? && consumer.Waiting?
    }

    constructor (capacity: nat)
      requires Capacity(capacity) && 0 < capacity
      ensures Valid() && AtRest() && fresh(buf) && buf.Length == capacity
      ensures Contents() == []
    {
      buf := new T[capacity];
      head, cachedTail, tail, cachedHead := 0, 0, 0, 0;
      producer, consumer := Idle, Waiting;
      hist := History([], [], 0, 0);
      new;
      InvInit(capacity, Snapshot());
    }

    /** The slot to fill, if there is room; tail does not move yet. */
    method PushBegin() returns (ok: bool, slot: nat)
      requires Valid() && producer.Idle?
      modifies this`cachedHead, this`producer, this`hist
      ensures Valid() && consumer == old(consumer) && Contents() == old(Contents())
      ensures ok == (|Contents()| < buf.Length)
      ensures producer == if ok then Holding else Idle
      ensures ok ==> slot == tail % buf.Length
    {
      slot := 0;
      ghost var s := Snapshot();
      AnswersAgree(buf.Length, s, head, tail);
      InFlightContents(buf.Length, s);
      InvNext(buf.Length, s, CheckRoom);
      if Minus(tail, cachedHead) == buf.Length {
        ghost var t := Next(s, CheckRoom);
        InvNext(buf.Length, t, LoadHead(head));
        hist := Record(t.ring, hist, LoadHead(head));
        cachedHead := head;
        if Minus(tail, cachedHead) == buf.Length {
          assert Snapshot() == Next(t, LoadHead(head));
          return false, 0;
        }
        producer := Holding;
        assert Snapshot() == Next(t, LoadHead(head));
        return true, tail % buf.Length;
      }
      producer := Holding;
      assert Snapshot() == Next(s, CheckRoom);
      return true, tail % buf.Length;
    }

    /** The borrower stores into its slot; nothing of it is visible yet. */
    method Write(slot: nat, item: T)
      requires Valid() && producer.Holding? && slot == tail % buf.Length
      modifies buf
      ensures Valid() && Contents() == old(Contents())
      ensures buf[tail % buf.Length] == item
    {
      ghost var s := Snapshot();
      InvNext(buf.Length, s, WriteSlot(item));
      buf[slot] := item;
      assert Snapshot() == Next(s, WriteSlot(item));
    }

    method PushCommit()
      requires Valid() && producer.Holding?
      modifies this`tail, this`producer, this`hist
      ensures Valid() && producer.Idle? && consumer == old(consumer)
      ensures Contents() == old(Contents()) + [buf[old(tail) % buf.Length]]
    {
      ghost var s := Snapshot();
      InvNext(buf.Length, s, Commit);
      hist := Record(s.ring, hist, Commit);
      tail := Wrap(tail + 1);
      producer := Idle;
      assert Snapshot() == Next(s, Commit);
    }

    /** push: borrow, copy, commit. */
    method Push(item: T) returns (ok: bool)
      requires Valid() && producer.Idle?
      modifies this`cachedHead, this`tail, this`producer, this`hist, buf
      ensures Valid() && producer.Idle? && consumer == old(consumer)
      ensures ok == (|old(Contents())| < buf.Length)
      ensures Contents() == if ok then old(Contents()) + [item] else old(Contents())
    {
      var slot;
      ok, slot := PushBegin();
      if ok {
        Write(slot, item);
        PushCommit();
      }
    }

    /** The slot with the oldest message, if there is one; head does not move yet. */
    method PopBegin() returns (ok: bool, slot: nat)
      requires Valid() && consumer.Waiting?
      modifies this`cachedTail, this`consumer, this`hist
      ensures Valid() && producer == old(producer) && Contents() == old(Contents())
      ensures ok == (Contents() != [])
      ensures consumer == if ok then Reading else Waiting
      ensures ok ==> slot == head % buf.Length && buf[slot] == Contents()[0]
    {
      slot := 0;
      ghost var s := Snapshot();
      AnswersAgree(buf.Length, s, head, tail);
      InFlightContents(buf.Length, s);
      InvNext(buf.Length, s, CheckItem);
      if head == cachedTail {
        ghost var t := Next(s, CheckItem);
        InvNext(buf.Length, t, LoadTail(tail));
        hist := Record(t.ring, hist, LoadTail(tail));
        cachedTail := tail;
        if head == cachedTail {
          assert Snapshot() == Next(t, LoadTail(tail));
          return false, 0;
        }
        consumer := Reading;
        assert Snapshot() == Next(t, LoadTail(tail));
      } else {
        consumer := Reading;
        assert Snapshot() == Next(s, CheckItem);
      }
      ok, slot := true, head % buf.Length;
      RefinesFifo(buf.Length, Snapshot(), EndPop);
      InFlightContents(buf.Length, Snapshot());
    }

    method PopEnd()
      requires Valid() && consumer.Reading? && Contents() != []
      modifies this`head, this`consumer, this`hist
      ensures Valid() && consumer.Waiting? && producer == old(producer)
      ensures Contents() == old(Contents())[1..]
    {
      ghost var s := Snapshot();
      InvNext(buf.Length, s, EndPop);
      hist := Record(s.ring, hist, EndPop);
      head := Wrap(head + 1);
      consumer := Waiting;
      assert Snapshot() == Next(s, EndPop);
    }

    /** pop: borrow, copy, give back. */
    method Pop(prior: T) returns (ok: bool, item: T)
      requires Valid() && consumer.Waiting?
      modifies this`cachedTail, this`head, this`consumer, this`hist
      ensures Valid() && consumer.Waiting? && producer == old(producer)
      ensures ok == (old(Contents()) != [])
      ensures item == if ok then old(Contents())[0] else prior
      ensures Contents() == if ok then old(Contents())[1..] else []
    {
      var slot;
      ok, slot := PopBegin();
      item := prior;
      if ok {
        item := buf[slot];
        PopEnd();
      }
    }
  }

  /** The uncached queue: every call loads the other side's index. */
  class PaddedQueue<T(0)> {
    const buf: array<T>
    var head: Word
    var tail: Word
    ghost var hist: History<T>

    /** It is the cached queue with caches that are always up to date. */
    ghost function Snapshot(): System<T>
      reads this, buf
    {
      System(Ring(head, tail, tail, head, buf[..], Idle, Waiting),
             hist.(seenHead := |hist.consumed|, seenTail := |hist.committed|))
    }

    ghost predicate Valid()
      reads this, buf
    {
      Inv(buf.Length, Snapshot())
    }

    ghost function Contents(): seq<T>
      requires Valid()
      reads this, buf
    {
      hist.committed[|hist.consumed|..]
    }

    constructor (capacity: nat)
      requires Capacity(capacity) && 0 < capacity
      ensures Valid() && fresh(buf) && buf.Length == capacity
      ensures Contents() == []
    {
      buf := new T[capacity];
      head, tail := 0, 0;
      hist := History([], [], 0, 0);
      new;
      InvInit(capacity, Snapshot());
    }

    method Push(item: T) returns (ok: bool)
      requires Valid()
      modifies this, buf
      ensures Valid()
      ensures ok == (|old(Contents())| < buf.Length)
      ensures Contents() == if ok then old(Contents()) + [item] else old(Contents())
    {
      ghost var s := Snapshot();
      AnswersAgree(buf.Length, s, head, tail);
      InFlightContents(buf.Length, s);
      if Minus(tail, head) == buf.Length {
        return false;
      }
      UncachedPush(buf.Length, s, item);
      buf[tail % buf.Length] := item;
      tail := Wrap(tail + 1);
      hist := hist.(committed := hist.committed + [item]);
      assert Snapshot() == Pushed(s, item);
      return true;
    }

    method Pop(prior: T) returns (ok: bool, item: T)
      requires Valid()
      modifies this
      ensures Valid()
      ensures ok == (old(Contents()) != [])
      ensures item == if ok then old(Contents())[0] else prior
      ensures Contents() == if ok then old(Contents())[1..] else []
    {
      ghost var s := Snapshot();
      UncachedEmpty(buf.Length, s);
      if head == tail {
        return false, prior;
      }
      UncachedPop(buf.Length, s);
      ok, item := true, buf[head % buf.Length];
      head := Wrap(head + 1);
      hist := hist.(consumed := hist.consumed + [item]);
      assert Snapshot() == Popped(s);
    }
  }

  /** The uncached queue's state after an accepted push. */
  ghost function Pushed<T>(s: System<T>, item: T): System<T>
    requires 0 < |s.ring.buf|
  {
    var r, log := s.ring, s.hist.committed + [item];
    System(r.(buf := r.buf[r.tail % |r.buf| := item], tail := Wrap(r.tail + 1), cachedTail := Wrap(r.tail + 1)),
           s.hist.(committed := log, seenTail := |log|))
  }

  ghost function Popped<T>(s: System<T>): System<T>
    requires 0 < |s.ring.buf|
  {
    var r, log := s.ring, s.hist.consumed + [s.ring.buf[s.ring.head % |s.ring.buf|]];
    System(r.(head := Wrap(r.head + 1), cachedHead := Wrap(r.head + 1)), s.hist.(consumed := log, seenHead := |log|))
  }

  ghost predicate Uncached<T>(s: System<T>) {
    && s.ring.cachedHead == s.ring.head && s.ring.cachedTail == s.ring.tail
    && s.hist.seenHead == |s.hist.consumed| && s.hist.seenTail == |s.hist.committed|
    && s.ring.producer.Idle? && s.ring.consumer.Waiting?
  }

  lemma UncachedPush<T>(cap: nat, s: System<T>, item: T)
    requires Inv(cap, s) && Uncached(s) && |s.hist.committed| - |s.hist.consumed| < cap
    ensures Inv(cap, Pushed(s, item))
  {
    var t := System(s.ring.(producer := Holding), s.hist);
    InvNext(cap, t, WriteSlot(item));
    InvNext(cap, Next(t, WriteSlot(item)), Commit);
  }

  lemma UncachedPop<T>(cap: nat, s: System<T>)
    requires Inv(cap, s) && Uncached(s) && |s.hist.consumed| < |s.hist.committed|
    ensures Inv(cap, Popped(s))
    ensures var q, h := s.hist.committed[|s.hist.consumed|..], Popped(s).hist;
            s.ring.buf[s.ring.head % cap] == q[0] && h.committed[|h.consumed|..] == q[1..]
  {
    var t := System(s.ring.(consumer := Reading), s.hist);
    InvNext(cap, t, EndPop);
    UncachedFront(cap, s);
  }

  lemma UncachedFront<T>(cap: nat, s: System<T>)
    requires Inv(cap, s) && Uncached(s) && |s.hist.consumed| < |s.hist.committed|
    ensures s.ring.buf[s.ring.head % cap] == s.hist.committed[|s.hist.consumed|]
  {
    SlotOfWrap(|s.hist.consumed|, cap);
  }

  lemma UncachedEmpty<T>(cap: nat, s: System<T>)
    requires Inv(cap, s)
    ensures s.ring.head == s.ring.tail <==> s.hist.committed[|s.hist.consumed|..] == []
  {
    WrapInjective(|s.hist.consumed|, |s.hist.committed|);
  }

  // Runs of calls by one thread.

  datatype Call<T> = DoPush(item: T) | DoPop

  datatype Reply<T> = Accepted | Full | Got(item: T) | Nothing

  /** One call on a FIFO queue of `cap` places that holds `q`. */
  function FifoCall<T>(cap: nat, q: seq<T>, call: Call<T>): (seq<T>, Reply<T>) {
    match call
    case DoPush(item) => if |q| < cap then (q + [item], Accepted) else (q, Full)
    case DoPop => if q != [] then (q[1..], Got(q[0])) else (q, Nothing)
  }

  /** What the queue holds after the calls, and what it answered. */
  function Fifo<T>(cap: nat, calls: seq<Call<T>>): (seq<T>, seq<Reply<T>>) {
    if calls == [] then ([], []) else
      var (q, answers) := Fifo(cap, calls[..|calls| - 1]);
      var (q', answer) := FifoCall(cap, q, calls[|calls| - 1]);
      (q', answers + [answer])
  }

  /** One call on both queues. */
  method CallBoth<T(0)>(c: CachedQueue<T>, p: PaddedQueue<T>, call: Call<T>, dummy: T)
    returns (x: Reply<T>, y: Reply<T>)
    requires c.Valid() && c.AtRest() && p.Valid() && c.buf != p.buf && c.buf.Length == p.buf.Length
    requires c.Contents() == p.Contents()
    modifies c, c.buf, p, p.buf
    ensures c.Valid() && c.AtRest() && p.Valid()
    ensures (c.Contents(), x) == FifoCall(c.buf.Length, old(c.Contents()), call)
    ensures (p.Contents(), y) == FifoCall(c.buf.Length, old(c.Contents()), call)
  {
    match call
    case DoPush(item) =>
      var a := c.Push(item);
      var b := p.Push(item);
      x, y := if a then Accepted else Full, if b then Accepted else Full;
    case DoPop =>
      var a, m := c.Pop(dummy);
      var b, n := p.Pop(dummy);
      x, y := if a then Got(m) else Nothing, if b then Got(n) else Nothing;
  }

  /** Whatever the calls, the cached and the uncached queue give the answers of a FIFO queue. */
  method QueuesAgree<T(0)>(capacity: nat, calls: seq<Call<T>>, dummy: T)
    returns (cached: seq<Reply<T>>, padded: seq<Reply<T>>)
    requires Capacity(capacity) && 0 < capacity
    ensures cached == Fifo(capacity, calls).1 && padded == Fifo(capacity, calls).1
  {
    var c := new CachedQueue<T>(capacity);
    var p := new PaddedQueue<T>(capacity);
    cached, padded := [], [];
    for i := 0 to |calls|
      invariant fresh(c) && fresh(c.buf) && fresh(p) && fresh(p.buf)
      invariant c.buf != p.buf && c.buf.Length == p.buf.Length == capacity
      invariant c.Valid() && c.AtRest() && p.Valid()
      invariant (c.Contents(), cached) == Fifo(capacity, calls[..i]) == (p.Contents(), padded)
    {
      assert calls[..i + 1][..i] == calls[..i];
      var x, y := CallBoth(c, p, calls[i], dummy);
      cached, padded := cached + [x], padded + [y];
    }
    assert calls[..|calls|] == calls;
  }
}
