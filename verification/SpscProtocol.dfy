/**
  * The cached SPSC ring as two threads taking turns, one atomic access at a time.
  *
  * Indices are 64-bit words that wrap. An acquire load of the other side's index may return any value
  * the index has held since it was last observed, not only the current one.
  */
module SpscProtocol {
  import opened Words

  /** Where the producer stands inside push, or push_begin .. push_commit. */
  datatype Producer = Idle | LooksFull | Holding

  /** Where the consumer stands inside pop, or pop_begin .. pop_end. */
  datatype Consumer = Waiting | LooksEmpty | Reading

  datatype Ring<T> = Ring(head: Word, cachedTail: Word, tail: Word, cachedHead: Word, buf: seq<T>,
                          producer: Producer, consumer: Consumer)

  datatype Action<T> =
    | CheckRoom              // compare tail with cached_head
    | LoadHead(seen: Word)   // acquire-load head into cached_head and compare again
    | WriteSlot(item: T)     // the borrower stores into the slot, as often as it likes
    | Abandon                // the borrower gives up before push_commit
    | Commit                 // release-store tail + 1
    | CheckItem              // compare head with cached_tail
    | LoadTail(seen: Word)   // acquire-load tail into cached_tail and compare again
    | Leave                  // the reader comes back to pop_begin without pop_end
    | EndPop                 // release-store head + 1

  /** `w` is a value that an index growing from `last` to `now` has held on the way. */
  predicate HeldSince(last: Word, w: Word, now: Word) {
    Minus(w, last) <= Minus(now, last)
  }

  predicate Enabled<T>(r: Ring<T>, a: Action<T>) {
    match a
    case CheckRoom => r.producer.Idle?
    case LoadHead(w) => r.producer.LooksFull? && HeldSince(r.cachedHead, w, r.head)
    case WriteSlot(_) => r.producer.Holding?
    case Abandon => r.producer.Holding?
    case Commit => r.producer.Holding?
    case CheckItem => r.consumer.Waiting?
    case LoadTail(w) => r.consumer.LooksEmpty? && HeldSince(r.cachedTail, w, r.tail)
    case Leave => r.consumer.Reading?
    case EndPop => r.consumer.Reading?
  }

  function Step<T>(r: Ring<T>, a: Action<T>): Ring<T>
    requires 0 < |r.buf|
  {
    var cap := |r.buf|;
    match a
    case CheckRoom => r.(producer := if Minus(r.tail, r.cachedHead) == cap then LooksFull else Holding)
    case LoadHead(w) => r.(cachedHead := w, producer := if Minus(r.tail, w) == cap then Idle else Holding)
    case WriteSlot(x) => r.(buf := r.buf[r.tail % cap := x])
    case Abandon => r.(producer := Idle)
    case Commit => r.(tail := Wrap(r.tail + 1), producer := Idle)
    case CheckItem => r.(consumer := if r.head == r.cachedTail then LooksEmpty else Reading)
    case LoadTail(w) => r.(cachedTail := w, consumer := if r.head == w then Waiting else Reading)
    case Leave => r.(consumer := Waiting)
    case EndPop => r.(head := Wrap(r.head + 1), consumer := Waiting)
  }

  /** The messages between head and tail, oldest first. */
  function InFlight<T>(r: Ring<T>): seq<T>
    requires 0 < |r.buf|
  {
    seq(Minus(r.tail, r.head), k requires 0 <= k => r.buf[Wrap(r.head + k) % |r.buf|])
  }

  /** Auxiliary variables: everything committed and consumed so far, and the indices last observed, unwrapped. */
  datatype History<T> = History(committed: seq<T>, consumed: seq<T>, seenHead: nat, seenTail: nat)

  datatype System<T> = System(ring: Ring<T>, hist: History<T>)

  function Record<T>(r: Ring<T>, h: History<T>, a: Action<T>): History<T>
    requires 0 < |r.buf|
  {
    match a
    case LoadHead(w) => h.(seenHead := h.seenHead + Minus(w, r.cachedHead))
    case LoadTail(w) => h.(seenTail := h.seenTail + Minus(w, r.cachedTail))
    case Commit => h.(committed := h.committed + [r.buf[r.tail % |r.buf|]])
    case EndPop => h.(consumed := h.consumed + [r.buf[r.head % |r.buf|]])
    case _ => h
  }

  function Next<T>(s: System<T>, a: Action<T>): System<T>
    requires 0 < |s.ring.buf|
  {
    System(Step(s.ring, a), Record(s.ring, s.hist, a))
  }

  /** After init; the buffer starts with whatever was in memory. */
  ghost predicate Initial<T>(cap: nat, s: System<T>) {
    && |s.ring.buf| == cap
    && s.ring == Ring(0, 0, 0, 0, s.ring.buf, Idle, Waiting)
    && s.hist == History([], [], 0, 0)
  }

  /** `states` is a run of the two threads, in any interleaving, that takes the steps `acts`. */
  ghost predicate Execution<T>(cap: nat, acts: seq<Action<T>>, states: seq<System<T>>) {
    && |states| == |acts| + 1
    && Initial(cap, states[0])
    && forall i | 0 <= i < |acts| :: Moves(cap, states[i], acts[i], states[i + 1])
  }

  ghost predicate Moves<T>(cap: nat, s: System<T>, a: Action<T>, s': System<T>) {
    |s.ring.buf| == cap > 0 && Enabled(s.ring, a) && s' == Next(s, a)
  }

  ghost predicate Inv<T>(cap: nat, s: System<T>) {
    var r, h, c, d := s.ring, s.hist, |s.hist.committed|, |s.hist.consumed|;
    && Capacity(cap) && |r.buf| == cap > 0
    && r.head == Wrap(d) && r.tail == Wrap(c) && r.cachedHead == Wrap(h.seenHead) && r.cachedTail == Wrap(h.seenTail)
    && h.seenHead <= d <= h.seenTail <= c <= h.seenHead + cap
    && (r.producer.Holding? ==> c < h.seenHead + cap)
    && (r.consumer.Reading? ==> d < h.seenTail)
    && h.consumed == h.committed[..d]
    && Stored(r.buf, h.committed, d)
  }

  /** The messages of `log` from position `from` on are in their slots. */
  ghost predicate Stored<T>(buf: seq<T>, log: seq<T>, from: nat) {
    0 < |buf| && forall k {:trigger log[k]} | from <= k < |log| :: buf[k % |buf|] == log[k]
  }

  lemma WriteKeepsStored<T>(buf: seq<T>, log: seq<T>, from: nat, x: T)
    requires Stored(buf, log, from) && from <= |log| < from + |buf|
    ensures Stored(buf[|log| % |buf| := x], log, from)
  {
    forall k | from <= k < |log|
      ensures buf[|log| % |buf| := x][k % |buf|] == log[k]
    {
      SlotsDistinct(k, |log|, |buf|);
    }
  }

  lemma CommitKeepsStored<T>(buf: seq<T>, log: seq<T>, from: nat)
    requires Stored(buf, log, from)
    ensures Stored(buf, log + [buf[|log| % |buf|]], from)
  {
    var log' := log + [buf[|log| % |buf|]];
    forall k | from <= k < |log'|
      ensures buf[k % |buf|] == log'[k]
    {
      if k < |log| {
        assert log'[k] == log[k];
      }
    }
  }

  lemma InvInit<T>(cap: nat, s: System<T>)
    requires Capacity(cap) && Initial(cap, s)
    ensures Inv(cap, s)
  {
    SlotOfWrap(0, cap);
  }

  lemma HeldSinceUnwraps(last: nat, w: Word, now: nat)
    requires last <= now < last + WORD
    requires HeldSince(Wrap(last), w, Wrap(now))
    ensures last + Minus(w, Wrap(last)) <= now
    ensures Wrap(last + Minus(w, Wrap(last))) == w
  {
    MinusCounts(last, now);
  }

  /** Loads may return the index at every point since it was last seen, and nothing else. */
  lemma HeldSinceMeans(last: nat, n: nat, now: nat)
    requires last <= n < last + WORD && last <= now < last + WORD
    ensures HeldSince(Wrap(last), Wrap(n), Wrap(now)) <==> n <= now
  {
    MinusCounts(last, n);
    MinusCounts(last, now);
  }

  predicate ByProducer<T>(a: Action<T>) {
    a.CheckRoom? || a.LoadHead? || a.WriteSlot? || a.Abandon? || a.Commit?
  }

  lemma LoadHeadKeeps<T>(cap: nat, s: System<T>, w: Word)
    requires Inv(cap, s) && Enabled(s.ring, LoadHead(w))
    ensures Inv(cap, Next(s, LoadHead(w)))
  {
    HeldSinceUnwraps(s.hist.seenHead, w, |s.hist.consumed|);
    MinusCounts(s.hist.seenHead + Minus(w, s.ring.cachedHead), |s.hist.committed|);
  }

  lemma CommitKeeps<T>(cap: nat, s: System<T>)
    requires Inv(cap, s) && Enabled(s.ring, Commit)
    ensures Inv(cap, Next(s, Commit))
  {
    SlotOfWrap(|s.hist.committed|, cap);
    WrapAdd(|s.hist.committed|, 1);
    CommitKeepsStored(s.ring.buf, s.hist.committed, |s.hist.consumed|);
  }

  lemma InvProducer<T>(cap: nat, s: System<T>, a: Action<T>)
    requires Inv(cap, s) && Enabled(s.ring, a) && ByProducer(a)
    ensures Inv(cap, Next(s, a))
  {
    match a
    case CheckRoom => MinusCounts(s.hist.seenHead, |s.hist.committed|);
    case LoadHead(w) => LoadHeadKeeps(cap, s, w);
    case WriteSlot(x) =>
      SlotOfWrap(|s.hist.committed|, cap);
      WriteKeepsStored(s.ring.buf, s.hist.committed, |s.hist.consumed|, x);
    case Commit => CommitKeeps(cap, s);
    case _ =>
  }

  lemma LoadTailKeeps<T>(cap: nat, s: System<T>, w: Word)
    requires Inv(cap, s) && Enabled(s.ring, LoadTail(w))
    ensures Inv(cap, Next(s, LoadTail(w)))
  {
    HeldSinceUnwraps(s.hist.seenTail, w, |s.hist.committed|);
  }

  lemma EndPopKeeps<T>(cap: nat, s: System<T>)
    requires Inv(cap, s) && Enabled(s.ring, EndPop)
    ensures Inv(cap, Next(s, EndPop))
  {
    SlotOfWrap(|s.hist.consumed|, cap);
    WrapAdd(|s.hist.consumed|, 1);
    assert s.hist.committed[|s.hist.consumed|] == s.ring.buf[|s.hist.consumed| % cap];
  }

  lemma InvConsumer<T>(cap: nat, s: System<T>, a: Action<T>)
    requires Inv(cap, s) && Enabled(s.ring, a) && !ByProducer(a)
    ensures Inv(cap, Next(s, a))
  {
    match a
    case LoadTail(w) => LoadTailKeeps(cap, s, w);
    case EndPop => EndPopKeeps(cap, s);
    case _ =>
  }

  lemma InvNext<T>(cap: nat, s: System<T>, a: Action<T>)
    requires Inv(cap, s) && Enabled(s.ring, a)
    ensures Inv(cap, Next(s, a))
  {
    if ByProducer(a) {
      InvProducer(cap, s, a);
    } else {
      InvConsumer(cap, s, a);
    }
  }

  lemma {:induction false} InvAlways<T>(cap: nat, acts: seq<Action<T>>, states: seq<System<T>>, i: nat)
    requires Capacity(cap) && Execution(cap, acts, states) && i < |states|
    ensures Inv(cap, states[i])
  {
    if i == 0 {
      InvInit(cap, states[0]);
    } else {
      var j := i - 1;
      InvAlways(cap, acts, states, j);
      assert Moves(cap, states[j], acts[j], states[j + 1]);
      InvNext(cap, states[j], acts[j]);
    }
  }

  /** A counter's slot, computed from a wrapped word some way behind it. */
  lemma SlotAhead(n: nat, k: nat, cap: nat)
    requires Capacity(cap)
    ensures 0 < cap && Wrap(Wrap(n) + k) % cap == (n + k) % cap
  {
    WrapAdd(n, k);
    SlotOfWrap(n + k, cap);
  }

  lemma InFlightContents<T>(cap: nat, s: System<T>)
    requires Inv(cap, s)
    ensures InFlight(s.ring) == s.hist.committed[|s.hist.consumed|..]
  {
    var r, log, d := s.ring, s.hist.committed, |s.hist.consumed|;
    MinusCounts(d, |log|);
    var q := InFlight(r);
    forall k | 0 <= k < |q|
      ensures q[k] == log[d..][k]
    {
      SlotAhead(d, k, cap);
      assert log[d..][k] == log[d + k];
    }
  }

  /**
    * Safety of every interleaving: what was consumed is a prefix of what was committed, the rest sits in the ring
    * in order and never exceeds CAPACITY, the two sides never hold the same slot, and a reader sees the oldest
    * message for as long as it holds the slot.
    */
  lemma {:induction false} Safety<T>(cap: nat, acts: seq<Action<T>>, states: seq<System<T>>, i: nat)
    requires Capacity(cap) && Execution(cap, acts, states) && i < |states|
    ensures var r, h := states[i].ring, states[i].hist;
            && |r.buf| == cap > 0
            && h.consumed <= h.committed
            && h.committed == h.consumed + InFlight(r)
            && |InFlight(r)| <= cap
            && (r.producer.Holding? && r.consumer.Reading? ==> r.tail % cap != r.head % cap)
            && (r.consumer.Reading? ==> |InFlight(r)| > 0 && r.buf[r.head % cap] == InFlight(r)[0])
  {
    var r, h := states[i].ring, states[i].hist;
    InvAlways(cap, acts, states, i);
    InFlightContents(cap, states[i]);
    SlotOfWrap(|h.committed|, cap);
    SlotOfWrap(|h.consumed|, cap);
    if r.producer.Holding? && r.consumer.Reading? {
      SlotsDistinct(|h.consumed|, |h.committed|, cap);
    }
  }

  /**
    * Refinement: seen through InFlight every step is one step of a bounded FIFO queue. Commit appends the borrowed
    * slot and finds room, EndPop removes the oldest message, and nothing else is visible; in particular an
    * uncommitted borrow, however much was written through it, has no effect.
    */
  lemma {:induction false} RefinesFifo<T>(cap: nat, s: System<T>, a: Action<T>)
    requires Inv(cap, s) && Enabled(s.ring, a)
    ensures var q, q' := InFlight(s.ring), InFlight(Next(s, a).ring);
            match a
            case Commit => |q| < cap && q' == q + [s.ring.buf[s.ring.tail % cap]]
            case EndPop => |q| > 0 && s.ring.buf[s.ring.head % cap] == q[0] && q' == q[1..]
            case _ => q' == q
  {
    InvNext(cap, s, a);
    InFlightContents(cap, s);
    InFlightContents(cap, Next(s, a));
    SlotOfWrap(|s.hist.committed|, cap);
    SlotOfWrap(|s.hist.consumed|, cap);
  }

  /** push, or push_begin, answers "accepted" with the load of head returning `head`. */
  predicate CachedAccepts<T>(r: Ring<T>, head: Word) {
    Minus(r.tail, r.cachedHead) != |r.buf| || Minus(r.tail, head) != |r.buf|
  }

  /** The same answer by the uncached queue, which loads head at every push. */
  predicate UncachedAccepts<T>(r: Ring<T>, head: Word) {
    Minus(r.tail, head) != |r.buf|
  }

  /** pop, or pop_begin, answers "item" with the load of tail returning `tail`. */
  predicate CachedHasItem<T>(r: Ring<T>, tail: Word) {
    r.head != r.cachedTail || r.head != tail
  }

  predicate UncachedHasItem<T>(r: Ring<T>, tail: Word) {
    r.head != tail
  }

  /**
    * Loading current values, the cached queue answers exactly like the uncached one, and both exactly like unbounded
    * counters would. With stale values it only errs towards "full" and "empty": it accepts only when there is room.
    */
  lemma {:induction false} AnswersAgree<T>(cap: nat, s: System<T>, staleHead: Word, staleTail: Word)
    requires Inv(cap, s)
    requires HeldSince(s.ring.cachedHead, staleHead, s.ring.head) &&
             HeldSince(s.ring.cachedTail, staleTail, s.ring.tail)
    ensures var r, room, some := s.ring, |InFlight(s.ring)| < cap, |InFlight(s.ring)| > 0;
            && (CachedAccepts(r, r.head) <==> room)
            && (UncachedAccepts(r, r.head) <==> room)
            && (CachedHasItem(r, r.tail) <==> some)
            && (UncachedHasItem(r, r.tail) <==> some)
            && (CachedAccepts(r, staleHead) ==> room)
            && (CachedHasItem(r, staleTail) ==> some)
  {
    var r, h, c, d := s.ring, s.hist, |s.hist.committed|, |s.hist.consumed|;
    MinusCounts(d, c);
    MinusCounts(h.seenHead, c);
    HeldSinceUnwraps(h.seenHead, staleHead, d);
    HeldSinceUnwraps(h.seenTail, staleTail, c);
    MinusCounts(h.seenHead + Minus(staleHead, r.cachedHead), c);
    WrapInjective(d, c);
    WrapInjective(d, h.seenTail);
    WrapInjective(d, h.seenTail + Minus(staleTail, r.cachedTail));
  }

  /** These conditions are the answers of the step system: a slot is lent at the first look or at the second. */
  lemma AnswersAreSteps<T>(r: Ring<T>, head: Word, tail: Word)
    requires 0 < |r.buf|
    ensures var t := Step(r, CheckRoom);
            CachedAccepts(r, head) <==>
              t.producer.Holding? || (t.producer.LooksFull? && Step(t, LoadHead(head)).producer.Holding?)
    ensures var t := Step(r, CheckItem);
            CachedHasItem(r, tail) <==>
              t.consumer.Reading? || (t.consumer.LooksEmpty? && Step(t, LoadTail(tail)).consumer.Reading?)
  {
  }

  /** The first look at a side: the slot is lent iff the indices as last seen leave room, or a message. */
  lemma FirstLook<T>(cap: nat, s: System<T>)
    requires Inv(cap, s)
    ensures var p := Next(s, CheckRoom).ring.producer;
            p == if |s.hist.committed| < s.hist.seenHead + cap then Holding else LooksFull
    ensures var c := Next(s, CheckItem).ring.consumer;
            c == if |s.hist.consumed| < s.hist.seenTail then Reading else LooksEmpty
  {
    MinusCounts(s.hist.seenHead, |s.hist.committed|);
    WrapInjective(|s.hist.consumed|, s.hist.seenTail);
  }

  /**
    * The second look at head, after a load that returned `w`: the slot is lent iff the head so seen leaves room, and
    * refused otherwise. With the current head that is iff the queue is not full.
    */
  lemma SecondLookAtHead<T>(cap: nat, s: System<T>, w: Word)
    requires Inv(cap, s) && Enabled(s.ring, LoadHead(w))
    ensures var t := Next(s, LoadHead(w));
            && s.hist.seenHead <= t.hist.seenHead <= |s.hist.consumed| && Wrap(t.hist.seenHead) == w
            && t.ring.producer == (if |s.hist.committed| < t.hist.seenHead + cap then Holding else Idle)
            && (w == s.ring.head ==>
                  && t.hist.seenHead == |s.hist.consumed|
                  && t.ring.producer == if |InFlight(s.ring)| < cap then Holding else Idle)
  {
    var h, c, d := s.hist, |s.hist.committed|, |s.hist.consumed|;
    var seen := h.seenHead + Minus(w, s.ring.cachedHead);
    HeldSinceUnwraps(h.seenHead, w, d);
    MinusCounts(seen, c);
    MinusCounts(d, c);
    MinusCounts(h.seenHead, d);
  }

  /** The second look at tail: a message is lent iff the tail so seen has one; the current one has every message. */
  lemma SecondLookAtTail<T>(cap: nat, s: System<T>, w: Word)
    requires Inv(cap, s) && Enabled(s.ring, LoadTail(w))
    ensures var t := Next(s, LoadTail(w));
            && s.hist.seenTail <= t.hist.seenTail <= |s.hist.committed| && Wrap(t.hist.seenTail) == w
            && t.ring.consumer == (if |s.hist.consumed| < t.hist.seenTail then Reading else Waiting)
            && (w == s.ring.tail ==>
                  && t.hist.seenTail == |s.hist.committed|
                  && t.ring.consumer == if |InFlight(s.ring)| > 0 then Reading else Waiting)
  {
    var h, c, d := s.hist, |s.hist.committed|, |s.hist.consumed|;
    var seen := h.seenTail + Minus(w, s.ring.cachedTail);
    HeldSinceUnwraps(h.seenTail, w, c);
    WrapInjective(d, seen);
    MinusCounts(d, c);
    MinusCounts(h.seenTail, c);
  }

  /** Neither side is ever stuck: where it stands, its next access is possible, with any value a load may return. */
  lemma NeverStuck<T>(cap: nat, s: System<T>, seenHead: nat, seenTail: nat, x: T)
    requires Inv(cap, s)
    requires s.hist.seenHead <= seenHead <= |s.hist.consumed| && s.hist.seenTail <= seenTail <= |s.hist.committed|
    ensures s.ring.producer.Idle? ==> Enabled(s.ring, CheckRoom)
    ensures s.ring.producer.LooksFull? ==> Enabled(s.ring, LoadHead(Wrap(seenHead)))
    ensures s.ring.producer.Holding? ==>
              Enabled(s.ring, WriteSlot(x)) && Enabled(s.ring, Commit) && Enabled(s.ring, Abandon)
    ensures s.ring.consumer.Waiting? ==> Enabled(s.ring, CheckItem)
    ensures s.ring.consumer.LooksEmpty? ==> Enabled(s.ring, LoadTail(Wrap(seenTail)))
    ensures s.ring.consumer.Reading? ==> Enabled(s.ring, EndPop) && Enabled(s.ring, Leave)
  {
    HeldSinceMeans(s.hist.seenHead, seenHead, |s.hist.consumed|);
    HeldSinceMeans(s.hist.seenTail, seenTail, |s.hist.committed|);
  }

  // Each call by itself, from start to finish, with loads that return current values.

  function PushBegun<T>(s: System<T>): (t: System<T>)
    requires 0 < |s.ring.buf|
    ensures |t.ring.buf| == |s.ring.buf|
  {
    var t := Next(s, CheckRoom);
    if t.ring.producer.LooksFull? then Next(t, LoadHead(t.ring.head)) else t
  }

  function PopBegun<T>(s: System<T>): (t: System<T>)
    requires 0 < |s.ring.buf|
    ensures |t.ring.buf| == |s.ring.buf|
  {
    var t := Next(s, CheckItem);
    if t.ring.consumer.LooksEmpty? then Next(t, LoadTail(t.ring.tail)) else t
  }

  lemma PushBegins<T>(cap: nat, s: System<T>)
    requires Inv(cap, s) && s.ring.producer.Idle?
    ensures Enabled(s.ring, CheckRoom)
    ensures var t := Next(s, CheckRoom).ring; t.producer.LooksFull? ==> Enabled(t, LoadHead(t.head))
    ensures var t := PushBegun(s);
            && Inv(cap, t) && t.ring.consumer == s.ring.consumer && InFlight(t.ring) == InFlight(s.ring)
            && t.ring.producer == if |InFlight(s.ring)| < cap then Holding else Idle
  {
    var t := Next(s, CheckRoom);
    FirstLook(cap, s);
    RefinesFifo(cap, s, CheckRoom);
    InvNext(cap, s, CheckRoom);
    InFlightContents(cap, s);
    if t.ring.producer.LooksFull? {
      SecondLookAtHead(cap, t, t.ring.head);
      RefinesFifo(cap, t, LoadHead(t.ring.head));
      InvNext(cap, t, LoadHead(t.ring.head));
    }
  }

  lemma PopBegins<T>(cap: nat, s: System<T>)
    requires Inv(cap, s) && s.ring.consumer.Waiting?
    ensures Enabled(s.ring, CheckItem)
    ensures var t := Next(s, CheckItem).ring; t.consumer.LooksEmpty? ==> Enabled(t, LoadTail(t.tail))
    ensures var t := PopBegun(s);
            && Inv(cap, t) && t.ring.producer == s.ring.producer && InFlight(t.ring) == InFlight(s.ring)
            && t.ring.consumer == if |InFlight(s.ring)| > 0 then Reading else Waiting
  {
    var t := Next(s, CheckItem);
    FirstLook(cap, s);
    RefinesFifo(cap, s, CheckItem);
    InvNext(cap, s, CheckItem);
    InFlightContents(cap, s);
    if t.ring.consumer.LooksEmpty? {
      SecondLookAtTail(cap, t, t.ring.tail);
      RefinesFifo(cap, t, LoadTail(t.ring.tail));
      InvNext(cap, t, LoadTail(t.ring.tail));
    }
  }

  /**
    * A push by itself, whatever went before: it gets the slot iff there is room, every step of it is possible, and then
    * its message is the newest in the queue. A borrow given up leaves everything as it was.
    */
  lemma {:induction false} PushAlone<T>(cap: nat, s: System<T>, x: T)
    requires Inv(cap, s) && s.ring.producer.Idle?
    ensures var t := PushBegun(s);
            && t.ring.producer == (if |InFlight(s.ring)| < cap then Holding else Idle)
            && InFlight(t.ring) == InFlight(s.ring)
    ensures |InFlight(s.ring)| < cap ==>
              var t := PushBegun(s);
              var u := Next(t, WriteSlot(x));
              && Enabled(t.ring, WriteSlot(x)) && Enabled(u.ring, Commit) && Enabled(t.ring, Abandon)
              && Next(u, Commit).ring.producer.Idle? && InFlight(Next(u, Commit).ring) == InFlight(s.ring) + [x]
              && Next(t, Abandon).ring.producer.Idle? && InFlight(Next(t, Abandon).ring) == InFlight(s.ring)
  {
    var t := PushBegun(s);
    PushBegins(cap, s);
    if |InFlight(s.ring)| < cap {
      InvNext(cap, t, WriteSlot(x));
      RefinesFifo(cap, t, WriteSlot(x));
      RefinesFifo(cap, Next(t, WriteSlot(x)), Commit);
      RefinesFifo(cap, t, Abandon);
    }
  }

  /**
    * A pop by itself: it gets the oldest message iff there is one, every step of it is possible, and then that message
    * is gone. A reader that comes back without pop_end leaves it.
    */
  lemma {:induction false} PopAlone<T>(cap: nat, s: System<T>)
    requires Inv(cap, s) && s.ring.consumer.Waiting?
    ensures var t := PopBegun(s);
            && t.ring.consumer == (if |InFlight(s.ring)| > 0 then Reading else Waiting)
            && InFlight(t.ring) == InFlight(s.ring)
    ensures |InFlight(s.ring)| > 0 ==>
              var t, q := PopBegun(s), InFlight(s.ring);
              && Enabled(t.ring, EndPop) && Enabled(t.ring, Leave) && t.ring.buf[t.ring.head % cap] == q[0]
              && Next(t, EndPop).ring.consumer.Waiting? && InFlight(Next(t, EndPop).ring) == q[1..]
              && Next(t, Leave).ring.consumer.Waiting? && InFlight(Next(t, Leave).ring) == q
  {
    var t := PopBegun(s);
    PopBegins(cap, s);
    if |InFlight(s.ring)| > 0 {
      RefinesFifo(cap, t, EndPop);
      RefinesFifo(cap, t, Leave);
    }
  }

  lemma WrapInjective(m: nat, n: nat)
    requires m <= n < m + WORD
    ensures Wrap(m) == Wrap(n) <==> m == n
  {
    MinusCounts(m, n);
  }
}
