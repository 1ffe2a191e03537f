/** The Rx thread, the drain thread and the done flag that ends the run. */
module Shutdown {
  import opened Words
  import opened SpscProtocol

  /** Where the drain loop stands. */
  datatype Drain =
    | Top      // pop_begin at the top of the loop
    | Flag     // it found nothing; about to load the done flag
    | Again    // the flag was set; the second pop_begin
    | Work     // it holds a slot
    | Exited

  /** `acc` is whatever the drain thread accumulates: symbol table, books, counters. */
  datatype Pipe<T, D> = Pipe(sys: System<T>, rxDone: bool, seenDone: bool, drain: Drain, acc: D, popped: nat)

  datatype Event<T> =
    | Rx(a: Action<T>)       // a step of the Rx thread on the ring
    | Finish                 // rx_stage_run returned: release-store g_rx_done
    | Poll                   // pop_begin compares with its cached tail
    | PollLoad(seen: Word)   // pop_begin loads tail and compares again
    | ReadFlag(done: bool)    // acquire-load g_rx_done; may still return the old 0
    | Process                // use the message, then pop_end

  function Consumed<T, D>(p: Pipe<T, D>, a: Action<T>, found: Drain, missed: Drain): Pipe<T, D>
    requires 0 < |p.sys.ring.buf|
  {
    var s := Next(p.sys, a);
    match s.ring.consumer
    case Reading => if found.Work? then p.(sys := s, drain := found) else p.(sys := Next(s, Leave), drain := found)
    case LooksEmpty => p.(sys := s)
    case Waiting => p.(sys := s, drain := missed)
  }

  /** What pop_begin makes of the loop's state, at either of its two calls. */
  function Polled<T, D>(p: Pipe<T, D>, a: Action<T>): Pipe<T, D>
    requires 0 < |p.sys.ring.buf|
  {
    if p.drain.Top? then Consumed(p, a, Work, Flag) else Consumed(p, a, Top, Exited)
  }

  /** `accepts` says which messages the Rx filter lets through. */
  predicate CanHappen<T, D>(p: Pipe<T, D>, e: Event<T>, accepts: T -> bool) {
    var r := p.sys.ring;
    && 0 < |r.buf|
    && match e
       case Rx(a) => !p.rxDone && ByProducer(a) && Enabled(r, a) && (a.Commit? ==> accepts(r.buf[r.tail % |r.buf|]))
       case Finish => !p.rxDone && r.producer.Idle?
       case Poll => (p.drain.Top? || p.drain.Again?) && Enabled(r, CheckItem)
       // The release-store of the flag follows the last store to tail: whoever has seen the flag sees that tail.
       case PollLoad(w) => (p.drain.Top? || p.drain.Again?) && Enabled(r, LoadTail(w)) && (p.seenDone ==> w == r.tail)
       case ReadFlag(done) => p.drain.Flag? && (done ==> p.rxDone)
       case Process => p.drain.Work? && Enabled(r, EndPop)
  }

  function Happen<T, D>(p: Pipe<T, D>, e: Event<T>, f: (D, T) -> D): Pipe<T, D>
    requires 0 < |p.sys.ring.buf|
  {
    var r := p.sys.ring;
    match e
    case Rx(a) => p.(sys := Next(p.sys, a))
    case Finish => p.(rxDone := true)
    case Poll => Polled(p, CheckItem)
    case PollLoad(w) => Polled(p, LoadTail(w))
    case ReadFlag(done) => if done then p.(seenDone := true, drain := Again) else p.(drain := Top)
    case Process => p.(sys := Next(p.sys, EndPop), drain := Top, acc := f(p.acc, r.buf[r.head % |r.buf|]),
                    popped := p.popped + 1)
  }

  /** One pass over the messages in order. */
  function Fold<T, D>(f: (D, T) -> D, init: D, msgs: seq<T>): D {
    if msgs == [] then init else f(Fold(f, init, msgs[..|msgs| - 1]), msgs[|msgs| - 1])
  }

  ghost predicate Happens<T(!new), D>(p: Pipe<T, D>, e: Event<T>, p': Pipe<T, D>, accepts: T -> bool, f: (D, T) -> D) {
    CanHappen(p, e, accepts) && p' == Happen(p, e, f)
  }

  /** Any interleaving of the two threads, from both queues and accumulators in their initial state. */
  ghost predicate Run<T(!new), D>(cap: nat, accepts: T -> bool, f: (D, T) -> D, init: D,
                                  events: seq<Event<T>>, pipes: seq<Pipe<T, D>>) {
    && |pipes| == |events| + 1
    && Initial(cap, pipes[0].sys)
    && pipes[0] == Pipe(pipes[0].sys, false, false, Top, init, 0)
    && forall i | 0 <= i < |events| :: Happens(pipes[i], events[i], pipes[i + 1], accepts, f)
  }

  ghost predicate PipeInv<T(!new), D>(cap: nat, accepts: T -> bool, f: (D, T) -> D, init: D, p: Pipe<T, D>) {
    var r, h := p.sys.ring, p.sys.hist;
    && Inv(cap, p.sys)
    && (forall m | m in h.committed :: accepts(m))
    && p.acc == Fold(f, init, h.consumed) && p.popped == |h.consumed|
    && (p.seenDone ==> p.rxDone) && (p.rxDone ==> r.producer.Idle?)
    && (p.drain.Again? ==> p.seenDone)
    && (p.drain.Work? <==> r.consumer.Reading?)
    && (p.drain.Flag? || p.drain.Exited? ==> r.consumer.Waiting?)
    && (p.drain.Exited? ==> p.rxDone && h.consumed == h.committed)
  }

  lemma RxStep<T(!new), D>(cap: nat, accepts: T -> bool, f: (D, T) -> D, init: D,
                            p: Pipe<T, D>, e: Event<T>, p': Pipe<T, D>)
    requires PipeInv(cap, accepts, f, init, p) && Happens(p, e, p', accepts, f)
    requires e.Rx?
    ensures PipeInv(cap, accepts, f, init, p')
  {
    var h, h' := p.sys.hist, p'.sys.hist;
    InvNext(cap, p.sys, e.a);
    assert h'.consumed == h.consumed;
    if e.a.Commit? {
      assert h'.committed[|h.committed|] == p.sys.ring.buf[p.sys.ring.tail % cap];
      assert forall m | m in h'.committed :: m in h.committed || m == h'.committed[|h.committed|];
    }
  }

  lemma PolledKeeps<T(!new), D>(cap: nat, accepts: T -> bool, f: (D, T) -> D, init: D, p: Pipe<T, D>, a: Action<T>)
    requires PipeInv(cap, accepts, f, init, p) && (p.drain.Top? || p.drain.Again?)
    requires Enabled(p.sys.ring, a) && (a.CheckItem? || a.LoadTail?)
    requires a.LoadTail? && p.seenDone ==> a == LoadTail(p.sys.ring.tail)
    ensures 0 < |p.sys.ring.buf| && PipeInv(cap, accepts, f, init, Polled(p, a))
  {
    PolledInv(cap, p.sys, a);
    assert Next(p.sys, a).ring.producer == p.sys.ring.producer;
  }

  lemma PollStep<T(!new), D>(cap: nat, accepts: T -> bool, f: (D, T) -> D, init: D,
                              p: Pipe<T, D>, e: Event<T>, p': Pipe<T, D>)
    requires PipeInv(cap, accepts, f, init, p) && Happens(p, e, p', accepts, f)
    requires e.Poll? || e.PollLoad?
    ensures PipeInv(cap, accepts, f, init, p')
  {
    PolledKeeps(cap, accepts, f, init, p, if e.Poll? then CheckItem else LoadTail(e.seen));
  }

  lemma ProcessStep<T(!new), D>(cap: nat, accepts: T -> bool, f: (D, T) -> D, init: D,
                                 p: Pipe<T, D>, e: Event<T>, p': Pipe<T, D>)
    requires PipeInv(cap, accepts, f, init, p) && Happens(p, e, p', accepts, f)
    requires e.Process?
    ensures PipeInv(cap, accepts, f, init, p')
  {
    InvNext(cap, p.sys, EndPop);
    var h' := p'.sys.hist;
    assert h'.consumed[..|h'.consumed| - 1] == p.sys.hist.consumed;
  }

  lemma PipeInvHappens<T(!new), D>(cap: nat, accepts: T -> bool, f: (D, T) -> D, init: D,
                                    p: Pipe<T, D>, e: Event<T>, p': Pipe<T, D>)
    requires PipeInv(cap, accepts, f, init, p) && Happens(p, e, p', accepts, f)
    ensures PipeInv(cap, accepts, f, init, p')
  {
    match e
    case Rx(_) => RxStep(cap, accepts, f, init, p, e, p');
    case Poll => PollStep(cap, accepts, f, init, p, e, p');
    case PollLoad(_) => PollStep(cap, accepts, f, init, p, e, p');
    case Process => ProcessStep(cap, accepts, f, init, p, e, p');
    case _ =>
  }

  lemma PolledInv<T>(cap: nat, s: System<T>, a: Action<T>)
    requires Inv(cap, s) && Enabled(s.ring, a) && (a.CheckItem? || a.LoadTail?)
    ensures Inv(cap, Next(s, a))
    ensures Next(s, a).hist == s.hist.(seenTail := Next(s, a).hist.seenTail)
    ensures Next(s, a).ring.consumer.Reading? ==> Inv(cap, Next(Next(s, a), Leave))
    ensures Next(s, a).ring.consumer.Waiting? && a == LoadTail(s.ring.tail) ==> s.hist.consumed == s.hist.committed
  {
    InvNext(cap, s, a);
    WrapInjective(|s.hist.consumed|, |s.hist.committed|);
    if Next(s, a).ring.consumer.Reading? {
      InvNext(cap, Next(s, a), Leave);
    }
  }

  lemma {:induction false} PipeInvAlways<T(!new), D>(cap: nat, accepts: T -> bool, f: (D, T) -> D, init: D,
                                                     events: seq<Event<T>>, pipes: seq<Pipe<T, D>>, i: nat)
    requires Capacity(cap) && Run(cap, accepts, f, init, events, pipes) && i < |pipes|
    ensures PipeInv(cap, accepts, f, init, pipes[i])
  {
    if i == 0 {
      InvInit(cap, pipes[0].sys);
    } else {
      var j := i - 1;
      PipeInvAlways(cap, accepts, f, init, events, pipes, j);
      assert Happens(pipes[j], events[j], pipes[j + 1], accepts, f);
      PipeInvHappens(cap, accepts, f, init, pipes[j], events[j], pipes[j + 1]);
    }
  }

  /**
    * Whatever the interleaving, when the drain thread has left its loop the Rx thread is done, every message it
    * committed was popped exactly once and in order, every one passed the Rx filter, and the accumulator is the
    * sequential fold over all of them.
    */
  lemma {:induction false} ShutdownComplete<T(!new), D>(cap: nat, accepts: T -> bool, f: (D, T) -> D, init: D,
                                     events: seq<Event<T>>, pipes: seq<Pipe<T, D>>, i: nat)
    requires Capacity(cap) && Run(cap, accepts, f, init, events, pipes) && i < |pipes|
    ensures var p, h := pipes[i], pipes[i].sys.hist;
            && h.consumed <= h.committed
            && p.acc == Fold(f, init, h.consumed)
            && (forall m | m in h.committed :: accepts(m))
            && (p.drain.Exited? ==> p.rxDone && p.popped == |h.committed| && p.acc == Fold(f, init, h.committed))
  {
    PipeInvAlways(cap, accepts, f, init, events, pipes, i);
  }

  // What each event of the drain thread does, told by what is in the queue.

  /** Where pop_begin leads: the first call to work or to the flag, the second back to the top or out of the loop. */
  function Leads(drain: Drain, found: bool): Drain {
    if drain.Top? then if found then Work else Flag else if found then Top else Exited
  }

  /** The first look at tail decides only if it shows a message. */
  lemma PollFinds<T(!new), D>(cap: nat, accepts: T -> bool, f: (D, T) -> D, init: D, p: Pipe<T, D>)
    requires PipeInv(cap, accepts, f, init, p) && CanHappen(p, Poll, accepts)
    ensures var h, p' := p.sys.hist, Happen(p, Poll, f);
            && p'.sys.hist.committed == h.committed && p'.sys.hist.consumed == h.consumed
            && p' == p.(sys := p'.sys, drain := p'.drain)
            && (|h.consumed| < h.seenTail ==>
                  && p'.drain == Leads(p.drain, true) && p'.sys.hist == h
                  && p'.sys.ring.consumer == if p.drain.Top? then Reading else Waiting)
            && (|h.consumed| == h.seenTail ==> p'.drain == p.drain && p'.sys.ring.consumer.LooksEmpty?)
  {
    FirstLook(cap, p.sys);
  }

  /** The second look, here with the current tail, decides: by whether there is a message. */
  lemma PollLoadFinds<T(!new), D>(cap: nat, accepts: T -> bool, f: (D, T) -> D, init: D, p: Pipe<T, D>)
    requires PipeInv(cap, accepts, f, init, p) && CanHappen(p, PollLoad(p.sys.ring.tail), accepts)
    ensures var h, p' := p.sys.hist, Happen(p, PollLoad(p.sys.ring.tail), f);
            && p'.sys.hist == h.(seenTail := |h.committed|)
            && p' == p.(sys := p'.sys, drain := p'.drain)
            && p'.drain == Leads(p.drain, h.consumed != h.committed)
            && p'.sys.ring.consumer == if p'.drain.Work? then Reading else Waiting
  {
    var tail := p.sys.ring.tail;
    SecondLookAtTail(cap, p.sys, tail);
    InFlightContents(cap, p.sys);
  }

  /** Working on a message takes it off the queue, and counts it. */
  lemma ProcessTakes<T(!new), D>(cap: nat, accepts: T -> bool, f: (D, T) -> D, init: D, p: Pipe<T, D>)
    requires PipeInv(cap, accepts, f, init, p) && p.drain.Work?
    ensures CanHappen(p, Process, accepts)
    ensures var h, p' := p.sys.hist, Happen(p, Process, f);
            && |h.consumed| < |h.committed| && p'.acc == f(p.acc, h.committed[|h.consumed|])
            && p'.popped == p.popped + 1 && p'.drain.Top? && p'.rxDone == p.rxDone && p'.seenDone == p.seenDone
            && p'.sys.ring.consumer.Waiting? && p'.sys.ring.producer == p.sys.ring.producer
            && p'.sys.hist == h.(consumed := h.committed[..|h.consumed| + 1])
  {
    SlotOfWrap(|p.sys.hist.consumed|, cap);
    assert p.sys.hist.committed[..|p.sys.hist.consumed| + 1] ==
           p.sys.hist.consumed + [p.sys.hist.committed[|p.sys.hist.consumed|]];
  }

  /** After the flag was seen, a second look that finds nothing ends the loop. */
  lemma DrainExits<T(!new), D>(cap: nat, accepts: T -> bool, f: (D, T) -> D, init: D, p: Pipe<T, D>)
    requires PipeInv(cap, accepts, f, init, p) && p.drain.Again? && p.sys.ring.consumer.LooksEmpty?
    requires p.sys.hist.consumed == p.sys.hist.committed
    ensures CanHappen(p, PollLoad(p.sys.ring.tail), accepts)
    ensures Happen(p, PollLoad(p.sys.ring.tail), f).drain.Exited?
  {
    NeverStuckAt(cap, p.sys);
    PollLoadFinds(cap, accepts, f, init, p);
  }

  lemma NeverStuckAt<T>(cap: nat, s: System<T>)
    requires Inv(cap, s) && s.ring.consumer.LooksEmpty?
    ensures Enabled(s.ring, LoadTail(s.ring.tail))
  {
    HeldSinceMeans(s.hist.seenTail, |s.hist.committed|, |s.hist.committed|);
  }

  /** The flag may be read as 0 at any time, as 1 once it is set; only then does the second call follow. */
  lemma FlagDecides<T(!new), D>(accepts: T -> bool, f: (D, T) -> D, p: Pipe<T, D>, done: bool)
    requires 0 < |p.sys.ring.buf| && p.drain.Flag?
    ensures CanHappen(p, ReadFlag(done), accepts) <==> (done ==> p.rxDone)
    ensures var p' := Happen(p, ReadFlag(done), f);
            && p'.drain == (if done then Again else Top) && p'.seenDone == (p.seenDone || done)
            && p' == p.(drain := p'.drain, seenDone := p'.seenDone)
  {
  }

  /** Wherever the drain thread stands in its loop, it can go on, with any value its load of tail may return. */
  lemma DrainNeverStuck<T(!new), D>(cap: nat, accepts: T -> bool, f: (D, T) -> D, init: D, p: Pipe<T, D>, seen: nat)
    requires PipeInv(cap, accepts, f, init, p) && p.sys.hist.seenTail <= seen <= |p.sys.hist.committed|
    ensures p.drain.Work? ==> CanHappen(p, Process, accepts)
    ensures p.drain.Flag? ==>
              CanHappen(p, ReadFlag(false), accepts) && (CanHappen(p, ReadFlag(true), accepts) <==> p.rxDone)
    ensures p.drain.Top? || p.drain.Again? ==>
              if p.sys.ring.consumer.Waiting? then CanHappen(p, Poll, accepts)
              else CanHappen(p, PollLoad(p.sys.ring.tail), accepts) &&
                   (!p.seenDone ==> CanHappen(p, PollLoad(Wrap(seen)), accepts))
  {
    HeldSinceMeans(p.sys.hist.seenTail, seen, |p.sys.hist.committed|);
    HeldSinceMeans(p.sys.hist.seenTail, |p.sys.hist.committed|, |p.sys.hist.committed|);
  }

  // The drain thread can always finish.

  /** These events can happen one after the other. */
  ghost predicate Possible<T(!new), D>(p: Pipe<T, D>, es: seq<Event<T>>, accepts: T -> bool, f: (D, T) -> D)
    decreases |es|
  {
    es == [] || (CanHappen(p, es[0], accepts) && Possible(Happen(p, es[0], f), es[1..], accepts, f))
  }

  ghost function Outcome<T(!new), D>(p: Pipe<T, D>, es: seq<Event<T>>, accepts: T -> bool, f: (D, T) -> D): Pipe<T, D>
    requires Possible(p, es, accepts, f)
    decreases |es|
  {
    if es == [] then p else Outcome(Happen(p, es[0], f), es[1..], accepts, f)
  }

  /** How far it is to the end, for a given number of messages left; `known` if the cached tail shows one. */
  function Rank(drain: Drain, looking: bool, known: bool): nat {
    match drain
    case Work => 0
    case Top => if known then 1 else if looking then 6 else 7
    case Again => if known then 2 else if looking then 3 else 4
    case Flag => 5
    case Exited => 0
  }

  /** The event the drain thread goes on with. */
  function Going<T, D>(p: Pipe<T, D>): Event<T> {
    match p.drain
    case Work => Process
    case Flag => ReadFlag(true)
    case _ => if p.sys.ring.consumer.LooksEmpty? then PollLoad(p.sys.ring.tail) else Poll
  }

  function Left<T, D>(p: Pipe<T, D>): int {
    |p.sys.hist.committed| - |p.sys.hist.consumed|
  }

  function RankOf<T, D>(p: Pipe<T, D>): nat {
    Rank(p.drain, p.sys.ring.consumer.LooksEmpty?, |p.sys.hist.consumed| < p.sys.hist.seenTail)
  }

  /** Once the Rx thread is done, every event brings the drain thread nearer to the end. */
  lemma GoesOn<T(!new), D>(cap: nat, accepts: T -> bool, f: (D, T) -> D, init: D, p: Pipe<T, D>)
    requires PipeInv(cap, accepts, f, init, p) && p.rxDone && !p.drain.Exited?
    ensures CanHappen(p, Going(p), accepts)
    ensures var p' := Happen(p, Going(p), f);
            && PipeInv(cap, accepts, f, init, p') && p'.rxDone && p'.sys.hist.committed == p.sys.hist.committed
            && 0 <= Left(p') && (Left(p') < Left(p) || (Left(p') == Left(p) && RankOf(p') < RankOf(p)))
  {
    var p' := Happen(p, Going(p), f);
    if p.sys.ring.consumer.LooksEmpty? {
      NeverStuckAt(cap, p.sys);
    }
    PipeInvHappens(cap, accepts, f, init, p, Going(p), p');
    if !p.drain.Work? && !p.drain.Flag? {
      if p.sys.ring.consumer.LooksEmpty? {
        PollLoadFinds(cap, accepts, f, init, p);
      } else {
        PollFinds(cap, accepts, f, init, p);
      }
    }
  }

  /** From every reachable state in which the Rx thread is done, the drain thread can leave its loop. */
  lemma {:induction false} CanFinish<T(!new), D>(cap: nat, accepts: T -> bool, f: (D, T) -> D, init: D, p: Pipe<T, D>)
    returns (es: seq<Event<T>>)
    requires PipeInv(cap, accepts, f, init, p) && p.rxDone
    ensures Possible(p, es, accepts, f) && Outcome(p, es, accepts, f).drain.Exited?
    ensures Outcome(p, es, accepts, f).sys.hist.committed == p.sys.hist.committed
    ensures forall e | e in es :: !e.Rx? && !e.Finish?
    decreases |p.sys.hist.committed| - |p.sys.hist.consumed|, RankOf(p)
  {
    if p.drain.Exited? {
      es := [];
    } else {
      GoesOn(cap, accepts, f, init, p);
      var rest := CanFinish(cap, accepts, f, init, Happen(p, Going(p), f));
      es := [Going(p)] + rest;
      assert es[1..] == rest;
    }
  }

  lemma PossibleFrom<T(!new), D>(p: Pipe<T, D>, es: seq<Event<T>>, k: nat, accepts: T -> bool, f: (D, T) -> D)
    requires k < |es| && CanHappen(p, es[k], accepts) && Possible(Happen(p, es[k], f), es[k + 1..], accepts, f)
    ensures Possible(p, es[k..], accepts, f)
    ensures Outcome(p, es[k..], accepts, f) == Outcome(Happen(p, es[k], f), es[k + 1..], accepts, f)
  {
    assert es[k..][1..] == es[k + 1..];
  }

  /** The second pop_begin of a round that finds nothing. */
  lemma SecondCall<T(!new), D>(cap: nat, accepts: T -> bool, f: (D, T) -> D, init: D, p: Pipe<T, D>, es: seq<Event<T>>)
    requires PipeInv(cap, accepts, f, init, p) && p.rxDone && p.drain.Again? && p.sys.ring.consumer.Waiting?
    requires p.sys.hist.consumed == p.sys.hist.committed
    requires |es| == 5 && es[3] == Poll && es[4] == PollLoad(p.sys.ring.tail)
    ensures Possible(p, es[3..], accepts, f)
    ensures var p' := Outcome(p, es[3..], accepts, f);
            p'.drain.Exited? && p'.acc == p.acc && p'.popped == p.popped
  {
    GoesOn(cap, accepts, f, init, p);
    PollFinds(cap, accepts, f, init, p);
    var p' := Happen(p, Poll, f);
    DrainExits(cap, accepts, f, init, p');
    PollLoadFinds(cap, accepts, f, init, p');
    PossibleFrom(p', es, 4, accepts, f);
    PossibleFrom(p, es, 3, accepts, f);
  }

  /** The last rounds: with the Rx thread done and nothing left, five accesses lead out of the loop. */
  lemma LastRounds<T(!new), D>(cap: nat, accepts: T -> bool, f: (D, T) -> D, init: D, p: Pipe<T, D>)
    requires PipeInv(cap, accepts, f, init, p) && p.rxDone && p.drain.Top? && p.sys.ring.consumer.Waiting?
    requires p.sys.hist.consumed == p.sys.hist.committed
    ensures var tail := p.sys.ring.tail;
            var es: seq<Event<T>> := [Poll, PollLoad(tail), ReadFlag(true), Poll, PollLoad(tail)];
            && Possible(p, es, accepts, f) && Outcome(p, es, accepts, f).drain.Exited?
            && Outcome(p, es, accepts, f).acc == p.acc && Outcome(p, es, accepts, f).popped == p.popped
  {
    var tail := p.sys.ring.tail;
    GoesOn(cap, accepts, f, init, p);
    PollFinds(cap, accepts, f, init, p);
    var p1 := Happen(p, Poll, f);
    GoesOn(cap, accepts, f, init, p1);
    PollLoadFinds(cap, accepts, f, init, p1);
    var p2 := Happen(p1, PollLoad(tail), f);
    GoesOn(cap, accepts, f, init, p2);
    var p3 := Happen(p2, ReadFlag(true), f);
    var es: seq<Event<T>> := [Poll, PollLoad(tail), ReadFlag(true), Poll, PollLoad(tail)];
    SecondCall(cap, accepts, f, init, p3, es);
    PossibleFrom(p2, es, 2, accepts, f);
    PossibleFrom(p1, es, 1, accepts, f);
    PossibleFrom(p, es, 0, accepts, f);
    assert es[0..] == es;
  }
}
