/** The two-thread program: the framer on the Rx thread, the consumer as the accumulator of the drain thread. */
module Live {
  import opened Words
  import opened Wire
  import opened Framer
  import opened FramerRuns
  import opened Decode
  import opened Desk
  import opened Dump
  import opened EndToEnd
  import opened Reference
  import opened Sequences
  import opened Shutdown
  import opened SpscProtocol
  import opened RxThread

  datatype DrainStats = DrainStats(popped: nat, buy: nat, sell: nat, other: nat, deletes: nat, afterGap: nat)

  datatype Live = Live(st: DrainStats, desk: Desk)

  const IDLE: Live := Live(DrainStats(0, 0, 0, 0, 0, 0), START)

  function Tallied(st: DrainStats, m: RxMsg): DrainStats {
    var t := m.plu[0];
    DrainStats(
      st.popped + 1, st.buy + (if t == PLU_BUY then 1 else 0), st.sell + (if t == PLU_SELL then 1 else 0),
      st.other + (if t != PLU_BUY && t != PLU_SELL then 1 else 0),
      st.deletes + (if SizeOf(m.plu) == 0 then 1 else 0), st.afterGap + (if m.afterGap then 1 else 0))
  }

  /** What the drain thread does with one message. */
  function Handle(o: Options): (Live, RxMsg) -> Live {
    (l: Live, m: RxMsg) =>
      Live(Tallied(l.st, m), if Sized(l.desk) then ConsumeOne(l.desk, m, o) else l.desk)
  }

  lemma {:induction false} HandleAll(o: Options, msgs: seq<RxMsg>)
    ensures Fold(Handle(o), IDLE, msgs).desk == ConsumeAll(START, msgs, o)
  {
    if msgs != [] {
      HandleAll(o, msgs[..|msgs| - 1]);
    }
  }

  /** Each counter of the drain thread is the number of messages of its kind. */
  lemma {:induction false} TallyCounts(o: Options, msgs: seq<RxMsg>)
    ensures var st := Fold(Handle(o), IDLE, msgs).st;
            && st.popped == |msgs|
            && st.buy == Count(msgs, (m: RxMsg) => m.plu[0] as char == '8')
            && st.sell == Count(msgs, (m: RxMsg) => m.plu[0] as char == '5')
            && st.deletes == Count(msgs, (m: RxMsg) => SizeOf(m.plu) == 0)
            && st.afterGap == Count(msgs, (m: RxMsg) => m.afterGap)
            && st.buy + st.sell + st.other == |msgs|
  {
    if msgs != [] {
      TallyCounts(o, msgs[..|msgs| - 1]);
    }
  }

  lemma {:induction false} TallyAll(o: Options, msgs: seq<RxMsg>)
    requires forall m | m in msgs :: IsPlu(m.plu)
    ensures Fold(Handle(o), IDLE, msgs).st.other == 0
  {
    if msgs != [] {
      var n := |msgs| - 1;
      assert msgs[n] in msgs;
      TallyAll(o, msgs[..n]);
    }
  }

  lemma QueueCapacity()
    ensures Capacity(RX_QUEUE_CAPACITY)
  {
    assert Pow2(5) == 32;
    assert Pow2(10) == 1024;
  }

  // The whole program: two threads, any datagrams.

  datatype Program = Program(pipe: Pipe<RxMsg, Live>, rx: RxState)

  datatype Happening = Arrives(buf: seq<Byte>, rxTsc: nat) | Does(e: Event<RxMsg>)

  /** The ring takes any message; that only updates come is the framer's doing. */
  function AnyMsg(): RxMsg -> bool {
    (_: RxMsg) => true
  }

  /** recvfrom comes back, or ends the loop, only between segments. */
  predicate MayHappen(s: Program, h: Happening) {
    match h
    case Arrives(_, _) => !s.pipe.rxDone && s.pipe.sys.ring.producer.Idle? && s.rx.todo == []
    case Does(e) =>
      && CanHappen(s.pipe, e, AnyMsg())
      && (e.Rx? ==> Willing(s.rx, s.pipe.sys.ring, e.a))
      && (e.Finish? ==> s.rx.todo == [])
  }

  function Happened(o: Options, s: Program, h: Happening): Program
    requires MayHappen(s, h)
  {
    match h
    case Arrives(buf, rxTsc) => s.(rx := Receive(s.rx, buf, rxTsc))
    case Does(e) => Program(Happen(s.pipe, e, Handle(o)), if e.Rx? then Stepped(s.rx, s.pipe.sys.ring, e.a) else s.rx)
  }

  ghost predicate Steps(o: Options, s: Program, h: Happening, s': Program) {
    MayHappen(s, h) && s' == Happened(o, s, h)
  }

  ghost predicate ProgramRun(o: Options, happenings: seq<Happening>, states: seq<Program>) {
    && |states| == |happenings| + 1
    && Initial(RX_QUEUE_CAPACITY, states[0].pipe.sys)
    && states[0] == Program(Pipe(states[0].pipe.sys, false, false, Top, IDLE, 0), RX_START)
    && forall i | 0 <= i < |happenings| :: Steps(o, states[i], happenings[i], states[i + 1])
  }

  ghost predicate ProgramInv(o: Options, s: Program) {
    && PipeInv(RX_QUEUE_CAPACITY, AnyMsg(), Handle(o), IDLE, s.pipe)
    && RxInv(s.rx, s.pipe.sys.hist.committed)
    && (s.pipe.rxDone ==> s.rx.todo == [])
    && (s.rx.todo == [] ==> s.pipe.sys.ring.producer.Idle?)
  }

  lemma CommittedByRx(o: Options, p: Pipe<RxMsg, Live>, e: Event<RxMsg>)
    requires CanHappen(p, e, AnyMsg())
    ensures Happen(p, e, Handle(o)).sys.hist.committed == p.sys.hist.committed +
            if e.Rx? && e.a.Commit? then [p.sys.ring.buf[p.sys.ring.tail % |p.sys.ring.buf|]] else []
  {
    assert p.sys.hist.committed + [] == p.sys.hist.committed;
  }

  lemma OthersCommitNothing(o: Options, p: Pipe<RxMsg, Live>, e: Event<RxMsg>)
    requires CanHappen(p, e, AnyMsg()) && !e.Rx?
    ensures Happen(p, e, Handle(o)).sys.hist.committed == p.sys.hist.committed
  {
    CommittedByRx(o, p, e);
    assert p.sys.hist.committed + [] == p.sys.hist.committed;
  }

  lemma {:induction false} RxKeeps(o: Options, s: Program, a: Action<RxMsg>)
    requires ProgramInv(o, s) && MayHappen(s, Does(Rx(a)))
    ensures RxInv(Happened(o, s, Does(Rx(a))).rx, Happened(o, s, Does(Rx(a))).pipe.sys.hist.committed)
  {
    var log := s.pipe.sys.hist.committed;
    CommittedByRx(o, s.pipe, Rx(a));
    if a.Commit? {
      DecideKeeps(s.rx, log, true);
    } else {
      DecideKeeps(s.rx, log, false);
      assert log + [] == log;
    }
  }

  lemma DrainLeavesProducer(o: Options, p: Pipe<RxMsg, Live>, e: Event<RxMsg>)
    requires CanHappen(p, e, AnyMsg()) && !e.Rx?
    ensures Happen(p, e, Handle(o)).sys.ring.producer == p.sys.ring.producer
  {
  }

  lemma {:induction false} RxAtRest(o: Options, s: Program, a: Action<RxMsg>)
    requires s.rx.todo == [] ==> s.pipe.sys.ring.producer.Idle?
    requires MayHappen(s, Does(Rx(a)))
    ensures var t := Happened(o, s, Does(Rx(a)));
            !t.pipe.rxDone && (t.rx.todo == [] ==> t.pipe.sys.ring.producer.Idle?)
  {
  }

  lemma {:induction false} ArrivalKeeps(o: Options, s: Program, buf: seq<Byte>, rxTsc: nat)
    requires ProgramInv(o, s) && MayHappen(s, Arrives(buf, rxTsc))
    ensures ProgramInv(o, Happened(o, s, Arrives(buf, rxTsc)))
  {
    ReceiveKeeps(s.rx, s.pipe.sys.hist.committed, buf, rxTsc);
  }

  lemma {:induction false} EventKeeps(o: Options, s: Program, e: Event<RxMsg>)
    requires ProgramInv(o, s) && MayHappen(s, Does(e))
    ensures ProgramInv(o, Happened(o, s, Does(e)))
  {
    PipeInvHappens(RX_QUEUE_CAPACITY, AnyMsg(), Handle(o), IDLE, s.pipe, e, Happen(s.pipe, e, Handle(o)));
    if e.Rx? {
      RxKeeps(o, s, e.a);
      RxAtRest(o, s, e.a);
    } else {
      OthersCommitNothing(o, s.pipe, e);
      DrainLeavesProducer(o, s.pipe, e);
    }
  }

  lemma {:induction false} ProgramKeeps(o: Options, s: Program, h: Happening, s': Program)
    requires ProgramInv(o, s) && Steps(o, s, h, s')
    ensures ProgramInv(o, s')
  {
    match h
    case Arrives(buf, rxTsc) => ArrivalKeeps(o, s, buf, rxTsc);
    case Does(e) => EventKeeps(o, s, e);
  }

  lemma {:induction false} ProgramAlways(o: Options, happenings: seq<Happening>, states: seq<Program>, i: nat)
    requires ProgramRun(o, happenings, states) && i < |states|
    ensures ProgramInv(o, states[i])
  {
    if i == 0 {
      QueueCapacity();
      InvInit(RX_QUEUE_CAPACITY, states[0].pipe.sys);
    } else {
      var j := i - 1;
      ProgramAlways(o, happenings, states, j);
      assert Steps(o, states[j], happenings[j], states[j + 1]);
      ProgramKeeps(o, states[j], happenings[j], states[j + 1]);
    }
  }

  /**
    * Until it is done the Rx thread can always go on: between segments the next datagram may come, or the end; within
    * one, the next access for the next update, and a slot once filled can be committed.
    */
  lemma {:induction false} RxNeverStuck(o: Options, s: Program, buf: seq<Byte>, rxTsc: nat, seen: nat)
    requires ProgramInv(o, s) && !s.pipe.rxDone
    requires s.pipe.sys.hist.seenHead <= seen <= |s.pipe.sys.hist.consumed|
    ensures s.rx.todo == [] ==> MayHappen(s, Arrives(buf, rxTsc)) && MayHappen(s, Does(Finish))
    ensures s.rx.todo != [] ==>
              s.rx.cur.InSegment? &&
              match s.pipe.sys.ring.producer
              case Idle => MayHappen(s, Does(Rx(CheckRoom)))
              case LooksFull => MayHappen(s, Does(Rx(LoadHead(Wrap(seen)))))
              case Holding => MayHappen(s, Does(Rx(WriteSlot(Message(s.rx))))) &&
                              MayHappen(Happened(o, s, Does(Rx(WriteSlot(Message(s.rx))))), Does(Rx(Commit)))
  {
    HeldSinceMeans(s.pipe.sys.hist.seenHead, seen, |s.pipe.sys.hist.consumed|);
  }

  lemma {:induction false} PushedArePlus(run: seq<Arrival>)
    ensures forall m | m in After(FRAMER_INIT, run).msgs :: IsPlu(m.plu)
  {
    if run != [] {
      var n := |run| - 1;
      PushedArePlus(run[..n]);
      FramedArePlus(After(FRAMER_INIT, run[..n]).state, run[n].buf, run[n].takes, run[n].rxTsc);
    }
  }

  lemma {:induction false} FramedArePlus(f: FramerState, buf: seq<Byte>, takes: nat -> bool, rxTsc: nat)
    ensures forall m | m in Framed(f, buf, takes, rxTsc).msgs :: IsPlu(m.plu)
  {
    if Counts(buf) {
      var g := Sequenced(f.(st := f.st.(datagrams := f.st.datagrams + 1)), FirstSeq(buf), MessageCount(buf));
      DeliverOnly(UpdatesOf(buf), takes, g.pendingGap, rxTsc);
      UpdatesArePlus(BodiesOf(buf).bodies, FirstSeq(buf));
      forall m | m in Framed(f, buf, takes, rxTsc).msgs ensures IsPlu(m.plu) {
        assert Payload(m) in UpdatesOf(buf);
      }
    }
  }

  lemma {:induction false} UpdatesArePlus(bodies: seq<seq<Byte>>, first: int)
    ensures forall u | u in Updates(bodies, first) :: IsPlu(u.plu)
  {
    if bodies != [] {
      UpdatesArePlus(bodies[..|bodies| - 1], first);
    }
  }

  /**
    * Whatever datagrams come and however the two threads interleave: when the program ends, the closing check holds -
    * as many messages popped as pushed, none of them anything but a Buy or Sell update -, the messages are those the
    * framer pushes of what was received (all of its updates, if dropped_full is 0), books and rows are those of one
    * pass over them, and the rows are the replay's iff every row due shows two right sides.
    */
  lemma {:induction false} LiveRun(o: Options, happenings: seq<Happening>, states: seq<Program>, i: nat)
    requires ProgramRun(o, happenings, states) && i < |states| && states[i].pipe.drain.Exited?
    ensures var s := states[i];
            var rx, msgs := s.rx.framer, s.pipe.sys.hist.committed;
            && After(FRAMER_INIT, Received(s.rx)) == Framing(rx, msgs)
            && s.pipe.acc.st.popped == s.pipe.popped == rx.st.pushed && s.pipe.acc.st.other == 0
            && s.pipe.acc.st.buy == Count(msgs, (m: RxMsg) => m.plu[0] as char == '8')
            && s.pipe.acc.st.sell == Count(msgs, (m: RxMsg) => m.plu[0] as char == '5')
            && (AllSane(msgs) ==> s.pipe.acc.desk == ConsumeAll(START, msgs, o))
            && (rx.st.droppedFull == 0 ==> Payloads(msgs) == AllUpdates(Received(s.rx)))
            && (Comparable(Payloads(msgs), o) ==>
                  && (s.pipe.acc.desk.lines == Selected(ReplayAll(Rows(Payloads(msgs))).out, o)
                      <==> RightRows(Payloads(msgs), o))
                  && (WithinHorizon(Payloads(msgs), o) ==> RightRows(Payloads(msgs), o)))
  {
    var s := states[i];
    var msgs := s.pipe.sys.hist.committed;
    ProgramAlways(o, happenings, states, i);
    SegmentDone(s.rx, msgs);
    PushedArePlus(Received(s.rx));
    TallyAll(o, msgs);
    TallyCounts(o, msgs);
    MessagesConserved(Received(s.rx));
    if s.rx.framer.st.droppedFull == 0 {
      UndroppedRun(Received(s.rx));
    }
    HandleAll(o, msgs);
    if Comparable(Payloads(msgs), o) {
      PrintsTheReplay(msgs, Payloads(msgs), o);
      if WithinHorizon(Payloads(msgs), o) {
        HorizonIsRight(Payloads(msgs), o);
      }
    }
  }

  // The same capture, live and offline.

  lemma OnePayloadMatters(d: Desk, m: RxMsg, n: RxMsg, o: Options)
    requires Sized(d) && Payload(m) == Payload(n)
    ensures ConsumeOne(d, m, o) == ConsumeOne(d, n, o)
  {
  }

  /** Receive times and gap flags leave no trace in books and rows. */
  lemma {:induction false} OnlyPayloadsMatter(d: Desk, a: seq<RxMsg>, b: seq<RxMsg>, o: Options)
    requires Sized(d) && Payloads(a) == Payloads(b)
    ensures ConsumeAll(d, a, o) == ConsumeAll(d, b, o)
    decreases |a|
  {
    var n := |a| - 1;
    assert |b| == |Payloads(b)| == |a|;
    forall i | 0 <= i < |a| ensures Payload(a[i]) == Payload(b[i]) {
      assert Payloads(a)[i] == Payloads(b)[i];
    }
    if a != [] {
      assert Payloads(a[..n]) == Payloads(a)[..n] == Payloads(b)[..n] == Payloads(b[..n]);
      OnlyPayloadsMatter(d, a[..n], b[..n], o);
      OnePayloadMatters(ConsumeAll(d, a[..n], o), a[n], b[n], o);
    }
  }

  ghost predicate SameDatagrams(a: seq<Arrival>, b: seq<Arrival>) {
    |a| == |b| && forall i | 0 <= i < |a| :: a[i].buf == b[i].buf
  }

  lemma {:induction false} SameUpdates(a: seq<Arrival>, b: seq<Arrival>)
    requires SameDatagrams(a, b)
    ensures AllUpdates(a) == AllUpdates(b)
    decreases |a|
  {
    if a != [] {
      SameUpdates(a[..|a| - 1], b[..|b| - 1]);
    }
  }

  /**
    * If neither program drops an update of the same datagrams, the live one ends with the symbol table, books, rows and
    * counters of the offline one, whatever the timing was.
    */
  lemma {:induction false} LiveIsOffline(o: Options, happenings: seq<Happening>, states: seq<Program>, i: nat,
                                         offline: seq<Arrival>)
    requires ProgramRun(o, happenings, states) && i < |states| && states[i].pipe.drain.Exited?
    requires states[i].rx.framer.st.droppedFull == 0 && AllSane(states[i].pipe.sys.hist.committed)
    requires EmptyQueues(offline) && SameDatagrams(Received(states[i].rx), offline)
    requires After(FRAMER_INIT, offline).state.st.droppedFull == 0
    ensures states[i].pipe.acc.desk == ConsumeAll(START, After(FRAMER_INIT, offline).msgs, o)
  {
    LiveRun(o, happenings, states, i);
    UndroppedRun(offline);
    SameUpdates(Received(states[i].rx), offline);
    OnlyPayloadsMatter(START, states[i].pipe.sys.hist.committed, After(FRAMER_INIT, offline).msgs, o);
  }
}
