/** The Rx thread one ring access at a time, and that what it commits is what the framer pushes. */
module RxThread {
  import opened Wire
  import opened Framer
  import opened FramerRuns
  import opened SpscProtocol

  /** The segment being walked; `decided` says of each update handled so far whether the queue took it. */
  datatype Current = NoSegment | InSegment(buf: seq<Byte>, rxTsc: nat, decided: seq<bool>)

  /** The framer's fields, the updates of the segment still to be handled, and the datagrams finished before it. */
  datatype RxState = RxState(framer: FramerState, todo: seq<Found>, cur: Current, past: seq<Arrival>)

  const RX_START: RxState := RxState(FRAMER_INIT, [], NoSegment, [])

  function Decided(decided: seq<bool>): nat -> bool {
    (k: nat) => k < |decided| && decided[k]
  }

  /** Everything received, with what the queue took. */
  function Received(rx: RxState): seq<Arrival> {
    match rx.cur
    case NoSegment => rx.past
    case InSegment(buf, rxTsc, decided) => rx.past + [Arrival(buf, Decided(decided), rxTsc)]
  }

  function Refusing(): nat -> bool {
    (_: nat) => false
  }

  /** All of a segment that does not depend on the queue: accounting, counts of messages, filtered and truncated. */
  function Entered(f: FramerState, buf: seq<Byte>): FramerState {
    var refused := Framed(f, buf, Refusing(), 0).state;
    refused.(st := refused.st.(droppedFull := f.st.droppedFull))
  }

  function Delivered(e: FramerState, d: Delivery): FramerState {
    FramerState(e.expectedSeq, d.pendingGap,
                e.st.(pushed := e.st.pushed + |d.msgs|, droppedFull := e.st.droppedFull + d.dropped))
  }

  /** The framer after one more update, taken by the queue or dropped. */
  function Handled(f: FramerState, took: bool): FramerState {
    if took then f.(pendingGap := false, st := f.st.(pushed := f.st.pushed + 1))
    else f.(st := f.st.(droppedFull := f.st.droppedFull + 1))
  }

  /** The message for the next update. */
  function Message(rx: RxState): RxMsg
    requires rx.todo != [] && rx.cur.InSegment?
  {
    RxMsg(rx.cur.rxTsc, rx.todo[0].seqNo, rx.framer.pendingGap, rx.todo[0].plu)
  }

  function Receive(rx: RxState, buf: seq<Byte>, rxTsc: nat): RxState {
    RxState(Entered(rx.framer, buf), UpdatesOf(buf), InSegment(buf, rxTsc, []), Received(rx))
  }

  function Decide(rx: RxState, took: bool): RxState
    requires rx.todo != [] && rx.cur.InSegment?
  {
    RxState(Handled(rx.framer, took), rx.todo[1..], rx.cur.(decided := rx.cur.decided + [took]), rx.past)
  }

  /** A ring step the thread may take: it only borrows for an update, commits its message whole, and gives up never. */
  predicate Willing(rx: RxState, r: Ring<RxMsg>, a: Action<RxMsg>) {
    && rx.todo != [] && rx.cur.InSegment? && 0 < |r.buf| && !a.Abandon?
    && (a.Commit? ==> r.buf[r.tail % |r.buf|] == Message(rx))
  }

  /** After a commit the update is pushed; after a second look at a full ring it is dropped. */
  function Stepped(rx: RxState, r: Ring<RxMsg>, a: Action<RxMsg>): RxState
    requires Willing(rx, r, a)
  {
    if a.Commit? then Decide(rx, true)
    else if a.LoadHead? && Step(r, a).producer.Idle? then Decide(rx, false)
    else rx
  }

  /**
    * When an update is decided: at the commit, which takes it, and at a second look at a ring that looks full, which
    * drops it; with the current head that is iff the ring is full. No other step decides.
    */
  lemma {:induction false} DecidedWhen(cap: nat, rx: RxState, s: System<RxMsg>, a: Action<RxMsg>)
    requires Inv(cap, s) && Enabled(s.ring, a) && ByProducer(a) && Willing(rx, s.ring, a)
    ensures a.Commit? ==> Stepped(rx, s.ring, a) == Decide(rx, true)
    ensures a.LoadHead? ==>
              Stepped(rx, s.ring, a) ==
              if |s.hist.committed| < Next(s, a).hist.seenHead + cap then rx else Decide(rx, false)
    ensures a == LoadHead(s.ring.head) ==>
              Stepped(rx, s.ring, a) == if |InFlight(s.ring)| < cap then rx else Decide(rx, false)
    ensures !a.Commit? && !a.LoadHead? ==> Stepped(rx, s.ring, a) == rx
  {
    if a.LoadHead? {
      SecondLookAtHead(cap, s, a.seen);
    }
  }

  lemma {:induction false} EnteredFramed(f: FramerState, buf: seq<Byte>, takes: nat -> bool, rxTsc: nat)
    ensures var e, r := Entered(f, buf), Framed(f, buf, takes, rxTsc);
            var d := Deliver(UpdatesOf(buf), takes, e.pendingGap, rxTsc);
            r.state == Delivered(e, d) && r.msgs == d.msgs
  {
    if IsDeep(buf) && MessageCount(buf) != 0 {
      var g := Sequenced(f.(st := f.st.(datagrams := f.st.datagrams + 1)), FirstSeq(buf), MessageCount(buf));
      NoneTaken(UpdatesOf(buf), g.pendingGap);
    }
  }

  lemma {:induction false} NoneTaken(found: seq<Found>, pendingGap: bool)
    ensures Deliver(found, Refusing(), pendingGap, 0) == Delivery([], |found|, pendingGap)
  {
    if found != [] {
      NoneTaken(found[..|found| - 1], pendingGap);
    }
  }

  // What the thread has committed is what the framer pushes.

  ghost predicate RxInv(rx: RxState, committed: seq<RxMsg>) {
    var r := After(FRAMER_INIT, rx.past);
    match rx.cur
    case NoSegment => rx == RX_START && committed == []
    case InSegment(buf, rxTsc, decided) =>
      Midway(rx.framer, rx.todo, committed, Entered(r.state, buf), r.msgs, UpdatesOf(buf), decided, rxTsc)
  }

  /** Of the updates `found` in the segment these are decided; `e` and `before` are framer and messages at its start. */
  ghost predicate Midway(framer: FramerState, todo: seq<Found>, committed: seq<RxMsg>, e: FramerState,
                         before: seq<RxMsg>, found: seq<Found>, decided: seq<bool>, rxTsc: nat)
  {
    && |decided| <= |found| && todo == found[|decided|..]
    && var d := Deliver(found[..|decided|], Decided(decided), e.pendingGap, rxTsc);
       framer == Delivered(e, d) && committed == before + d.msgs
  }

  lemma {:induction false} DeliverAgree(found: seq<Found>, a: nat -> bool, b: nat -> bool, pendingGap: bool, rxTsc: nat)
    requires forall k: nat | k < |found| :: a(k) == b(k)
    ensures Deliver(found, a, pendingGap, rxTsc) == Deliver(found, b, pendingGap, rxTsc)
  {
    if found != [] {
      DeliverAgree(found[..|found| - 1], a, b, pendingGap, rxTsc);
    }
  }

  /** One more update decided. */
  lemma {:induction false} DecideDelivers(found: seq<Found>, decided: seq<bool>, took: bool, pendingGap: bool,
                                          rxTsc: nat)
    requires |decided| < |found|
    ensures var n := |decided|;
            var d := Deliver(found[..n], Decided(decided), pendingGap, rxTsc);
            Deliver(found[..n + 1], Decided(decided + [took]), pendingGap, rxTsc) ==
            if took then Delivery(d.msgs + [RxMsg(rxTsc, found[n].seqNo, d.pendingGap, found[n].plu)], d.dropped, false)
            else d.(dropped := d.dropped + 1)
  {
    var n := |decided|;
    assert found[..n] + [found[n]] == found[..n + 1];
    DeliverLast(found[..n], found[n], Decided(decided + [took]), pendingGap, rxTsc);
    DeliverAgree(found[..n], Decided(decided), Decided(decided + [took]), pendingGap, rxTsc);
  }

  lemma {:induction false} MidwayNext(framer: FramerState, todo: seq<Found>, committed: seq<RxMsg>, e: FramerState,
                                      before: seq<RxMsg>, found: seq<Found>, decided: seq<bool>, rxTsc: nat, took: bool)
    requires Midway(framer, todo, committed, e, before, found, decided, rxTsc) && todo != []
    ensures var m := RxMsg(rxTsc, todo[0].seqNo, framer.pendingGap, todo[0].plu);
            Midway(Handled(framer, took), todo[1..], committed + if took then [m] else [], e, before, found,
                   decided + [took], rxTsc)
  {
    var d := Deliver(found[..|decided|], Decided(decided), e.pendingGap, rxTsc);
    var m := RxMsg(rxTsc, todo[0].seqNo, framer.pendingGap, todo[0].plu);
    DecideDelivers(found, decided, took, e.pendingGap, rxTsc);
    if took {
      assert (before + d.msgs) + [m] == before + (d.msgs + [m]);
    } else {
      assert committed + [] == committed;
    }
  }

  lemma {:induction false} DecideKeeps(rx: RxState, committed: seq<RxMsg>, took: bool)
    requires RxInv(rx, committed) && rx.todo != [] && rx.cur.InSegment?
    ensures RxInv(Decide(rx, took), committed + if took then [Message(rx)] else [])
  {
    var r := After(FRAMER_INIT, rx.past);
    MidwayNext(rx.framer, rx.todo, committed, Entered(r.state, rx.cur.buf), r.msgs, UpdatesOf(rx.cur.buf),
               rx.cur.decided, rx.cur.rxTsc, took);
  }

  /** With every update of its segment handled, the thread stands where the framer does after all it received. */
  lemma {:induction false} SegmentDone(rx: RxState, committed: seq<RxMsg>)
    requires RxInv(rx, committed) && rx.todo == []
    ensures After(FRAMER_INIT, Received(rx)) == Framing(rx.framer, committed)
  {
    if rx.cur.InSegment? {
      var r, found := After(FRAMER_INIT, rx.past), UpdatesOf(rx.cur.buf);
      assert found[..|rx.cur.decided|] == found;
      EnteredFramed(r.state, rx.cur.buf, Decided(rx.cur.decided), rx.cur.rxTsc);
      assert Received(rx)[..|rx.past|] == rx.past;
    }
  }

  lemma {:induction false} ReceiveKeeps(rx: RxState, committed: seq<RxMsg>, buf: seq<Byte>, rxTsc: nat)
    requires RxInv(rx, committed) && rx.todo == []
    ensures RxInv(Receive(rx, buf, rxTsc), committed)
  {
    SegmentDone(rx, committed);
    assert UpdatesOf(buf)[..0] == [];
    assert committed + [] == committed;
  }
}
