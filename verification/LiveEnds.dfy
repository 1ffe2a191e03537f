/** For any datagrams the two-thread program can run to its end, and without dropping anything. */
module LiveEnds {
  import opened Wire
  import opened Framer
  import opened FramerRuns
  import opened Desk
  import opened RxThread
  import opened Shutdown
  import opened SpscProtocol
  import opened Live

  // Lists of steps.

  /** These steps can be taken one after the other. */
  ghost predicate Goes(o: Options, s: Program, hs: seq<Happening>)
    decreases |hs|
  {
    hs == [] || (MayHappen(s, hs[0]) && Goes(o, Happened(o, s, hs[0]), hs[1..]))
  }

  ghost function Ends(o: Options, s: Program, hs: seq<Happening>): Program
    requires Goes(o, s, hs)
    decreases |hs|
  {
    if hs == [] then s else Ends(o, Happened(o, s, hs[0]), hs[1..])
  }

  lemma {:induction false} GoesOne(o: Options, s: Program, h: Happening)
    requires MayHappen(s, h)
    ensures Goes(o, s, [h]) && Ends(o, s, [h]) == Happened(o, s, h)
  {
    assert [h][1..] == [];
  }

  lemma {:induction false} GoesAppend(o: Options, s: Program, a: seq<Happening>, b: seq<Happening>)
    requires Goes(o, s, a) && Goes(o, Ends(o, s, a), b)
    ensures Goes(o, s, a + b) && Ends(o, s, a + b) == Ends(o, Ends(o, s, a), b)
    decreases |a|
  {
    if a == [] {
      assert a + b == b;
    } else {
      assert (a + b)[1..] == a[1..] + b;
      GoesAppend(o, Happened(o, s, a[0]), a[1..], b);
    }
  }

  /** The states gone through. */
  lemma {:induction false} StatesOf(o: Options, s: Program, hs: seq<Happening>) returns (states: seq<Program>)
    requires Goes(o, s, hs)
    ensures |states| == |hs| + 1 && states[0] == s && states[|hs|] == Ends(o, s, hs)
    ensures forall i | 0 <= i < |hs| :: Steps(o, states[i], hs[i], states[i + 1])
    decreases |hs|
  {
    if hs == [] {
      states := [s];
    } else {
      var rest := StatesOf(o, Happened(o, s, hs[0]), hs[1..]);
      states := [s] + rest;
      forall i | 0 <= i < |hs| ensures Steps(o, states[i], hs[i], states[i + 1]) {
        if i > 0 {
          assert Steps(o, rest[i - 1], hs[1..][i - 1], rest[i]);
        }
      }
    }
  }

  // One update through the ring and out of it again.

  /** Both threads between two updates, with nothing in the ring. */
  ghost predicate Quiet(o: Options, s: Program) {
    Rested(o, s) && s.pipe.sys.hist.consumed == s.pipe.sys.hist.committed
  }

  /** The drain thread at the top of its loop, the Rx thread not in the middle of a push. */
  ghost predicate Rested(o: Options, s: Program) {
    Draining(o, s) && s.pipe.sys.ring.producer.Idle?
  }

  ghost predicate Draining(o: Options, s: Program) {
    ProgramInv(o, s) && !s.pipe.rxDone && s.pipe.drain.Top? && s.pipe.sys.ring.consumer.Waiting?
  }

  /** The Rx thread has borrowed a slot for its next update. */
  ghost predicate Borrowed(o: Options, s: Program) {
    Draining(o, s) && s.pipe.sys.ring.producer.Holding? && s.rx.todo != [] && s.rx.cur.InSegment?
  }

  /** One access of the Rx thread leaves the drain thread where it is. */
  lemma {:induction false} RxDoes(o: Options, s: Program, a: Action<RxMsg>)
    requires Draining(o, s) && Enabled(s.pipe.sys.ring, a) && ByProducer(a) && Willing(s.rx, s.pipe.sys.ring, a)
    ensures MayHappen(s, Does(Rx(a)))
    ensures var t := Happened(o, s, Does(Rx(a)));
            && Draining(o, t) && t.rx == Stepped(s.rx, s.pipe.sys.ring, a) && t.pipe.sys == Next(s.pipe.sys, a)
            && t.pipe.sys.hist.consumed == s.pipe.sys.hist.consumed
  {
    ProgramKeeps(o, s, Does(Rx(a)), Happened(o, s, Does(Rx(a))));
  }

  lemma {:induction false} Borrow(o: Options, s: Program) returns (hs: seq<Happening>)
    requires Quiet(o, s) && s.rx.todo != [] && s.rx.cur.InSegment?
    ensures Goes(o, s, hs)
    ensures var t := Ends(o, s, hs);
            Borrowed(o, t) && t.rx == s.rx && t.pipe.sys.hist.consumed == t.pipe.sys.hist.committed
  {
    RxDoes(o, s, CheckRoom);
    GoesOne(o, s, Does(Rx(CheckRoom)));
    var t := Happened(o, s, Does(Rx(CheckRoom)));
    FirstLook(RX_QUEUE_CAPACITY, s.pipe.sys);
    hs := [Does(Rx(CheckRoom))];
    if t.pipe.sys.ring.producer.LooksFull? {
      var a := LoadHead(t.pipe.sys.ring.head);
      HeldSinceMeans(t.pipe.sys.hist.seenHead, |t.pipe.sys.hist.consumed|, |t.pipe.sys.hist.consumed|);
      InFlightContents(RX_QUEUE_CAPACITY, t.pipe.sys);
      SecondLookAtHead(RX_QUEUE_CAPACITY, t.pipe.sys, t.pipe.sys.ring.head);
      RxDoes(o, t, a);
      GoesOne(o, t, Does(Rx(a)));
      GoesAppend(o, s, hs, [Does(Rx(a))]);
      hs := hs + [Does(Rx(a))];
    }
  }

  lemma {:induction false} StoreAndCommit(o: Options, s: Program) returns (hs: seq<Happening>)
    requires Borrowed(o, s)
    ensures Goes(o, s, hs)
    ensures var t := Ends(o, s, hs);
            && Rested(o, t) && t.rx == Decide(s.rx, true)
            && t.pipe.sys.hist.consumed == s.pipe.sys.hist.consumed
            && |t.pipe.sys.hist.committed| == |s.pipe.sys.hist.committed| + 1
  {
    var write: Action<RxMsg> := WriteSlot(Message(s.rx));
    RxDoes(o, s, write);
    GoesOne(o, s, Does(Rx(write)));
    var t := Happened(o, s, Does(Rx(write)));
    RxDoes(o, t, Commit);
    GoesOne(o, t, Does(Rx(Commit)));
    GoesAppend(o, s, [Does(Rx(write))], [Does(Rx(Commit))]);
    hs := [Does(Rx(write))] + [Does(Rx(Commit))];
  }

  /** One event of the drain thread leaves the Rx thread where it is. */
  lemma {:induction false} DrainDoes(o: Options, s: Program, e: Event<RxMsg>)
    requires ProgramInv(o, s) && CanHappen(s.pipe, e, AnyMsg()) && !e.Rx? && !e.Finish?
    ensures MayHappen(s, Does(e))
    ensures var t := Happened(o, s, Does(e));
            ProgramInv(o, t) && t.rx == s.rx && t.pipe == Happen(s.pipe, e, Handle(o))
  {
    ProgramKeeps(o, s, Does(e), Happened(o, s, Does(e)));
  }

  /** The drain thread finds a message. */
  lemma {:induction false} Find(o: Options, s: Program) returns (hs: seq<Happening>)
    requires Rested(o, s) && |s.pipe.sys.hist.consumed| + 1 == |s.pipe.sys.hist.committed|
    ensures Goes(o, s, hs)
    ensures var t := Ends(o, s, hs);
            OnLast(o, t) && t.rx == s.rx
  {
    PollFinds(RX_QUEUE_CAPACITY, AnyMsg(), Handle(o), IDLE, s.pipe);
    DrainDoes(o, s, Poll);
    GoesOne(o, s, Does(Poll));
    hs := [Does(Poll)];
    var t := Happened(o, s, Does(Poll));
    if !t.pipe.drain.Work? {
      var e: Event<RxMsg> := PollLoad(t.pipe.sys.ring.tail);
      NeverStuckAt(RX_QUEUE_CAPACITY, t.pipe.sys);
      PollLoadFinds(RX_QUEUE_CAPACITY, AnyMsg(), Handle(o), IDLE, t.pipe);
      DrainDoes(o, t, e);
      GoesOne(o, t, Does(e));
      GoesAppend(o, s, hs, [Does(e)]);
      hs := hs + [Does(e)];
    }
  }

  /** The drain thread works on the only message. */
  ghost predicate OnLast(o: Options, s: Program) {
    && ProgramInv(o, s) && !s.pipe.rxDone && s.pipe.drain.Work? && s.pipe.sys.ring.producer.Idle?
    && |s.pipe.sys.hist.consumed| + 1 == |s.pipe.sys.hist.committed|
  }

  lemma {:induction false} WorkOne(o: Options, s: Program)
    requires OnLast(o, s)
    ensures MayHappen(s, Does(Process))
    ensures Quiet(o, Happened(o, s, Does(Process))) && Happened(o, s, Does(Process)).rx == s.rx
  {
    DrainDoes(o, s, Process);
    ProcessTakes(RX_QUEUE_CAPACITY, AnyMsg(), Handle(o), IDLE, s.pipe);
    var log := s.pipe.sys.hist.committed;
    assert log[..|log|] == log;
  }

  lemma {:induction false} Take(o: Options, s: Program) returns (hs: seq<Happening>)
    requires Rested(o, s) && |s.pipe.sys.hist.consumed| + 1 == |s.pipe.sys.hist.committed|
    ensures Goes(o, s, hs) && Quiet(o, Ends(o, s, hs)) && Ends(o, s, hs).rx == s.rx
  {
    hs := Find(o, s);
    var t := Ends(o, s, hs);
    WorkOne(o, t);
    GoesOne(o, t, Does(Process));
    GoesAppend(o, s, hs, [Does(Process)]);
    hs := hs + [Does(Process)];
  }

  /** The next update goes through. */
  lemma {:induction false} PassOne(o: Options, s: Program) returns (hs: seq<Happening>)
    requires Quiet(o, s) && s.rx.todo != [] && s.rx.cur.InSegment?
    ensures Goes(o, s, hs) && Quiet(o, Ends(o, s, hs)) && Ends(o, s, hs).rx == Decide(s.rx, true)
  {
    hs := Borrow(o, s);
    var t := Ends(o, s, hs);
    var more := StoreAndCommit(o, t);
    GoesAppend(o, s, hs, more);
    hs := hs + more;
    more := Take(o, Ends(o, s, hs));
    GoesAppend(o, s, hs, more);
    hs := hs + more;
  }

  /** The thread has the datagrams of `run`, the last one still in the middle, and has dropped nothing. */
  ghost predicate Has(rx: RxState, run: seq<Arrival>) {
    SameDatagrams(Received(rx), run) && rx.framer.st.droppedFull == 0 && (rx.todo != [] ==> rx.cur.InSegment?)
  }

  lemma {:induction false} PassAll(o: Options, s: Program, run: seq<Arrival>) returns (hs: seq<Happening>)
    requires Quiet(o, s) && Has(s.rx, run)
    ensures Goes(o, s, hs)
    ensures var t := Ends(o, s, hs); Quiet(o, t) && t.rx.todo == [] && Has(t.rx, run)
    decreases |s.rx.todo|
  {
    hs := [];
    if s.rx.todo != [] {
      hs := PassOne(o, s);
      var more := PassAll(o, Ends(o, s, hs), run);
      GoesAppend(o, s, hs, more);
      hs := hs + more;
    }
  }

  lemma {:induction false} PassDatagram(o: Options, s: Program, run: seq<Arrival>, a: Arrival)
    returns (hs: seq<Happening>)
    requires Quiet(o, s) && s.rx.todo == [] && Has(s.rx, run)
    ensures Goes(o, s, hs)
    ensures var t := Ends(o, s, hs); Quiet(o, t) && t.rx.todo == [] && Has(t.rx, run + [a])
  {
    var h := Arrives(a.buf, a.rxTsc);
    var t := Happened(o, s, h);
    ProgramKeeps(o, s, h, t);
    GoesOne(o, s, h);
    hs := PassAll(o, t, run + [a]);
    GoesAppend(o, s, [h], hs);
    hs := [h] + hs;
  }

  /** These steps have received the datagrams of `run` and passed all their updates. */
  ghost predicate Passes(o: Options, s: Program, hs: seq<Happening>, run: seq<Arrival>) {
    Goes(o, s, hs) && var t := Ends(o, s, hs); Quiet(o, t) && t.rx.todo == [] && Has(t.rx, run)
  }

  lemma {:induction false} PassNext(o: Options, s: Program, hs: seq<Happening>, run: seq<Arrival>, a: Arrival)
    returns (all: seq<Happening>)
    requires Passes(o, s, hs, run)
    ensures Passes(o, s, all, run + [a])
  {
    var more := PassDatagram(o, Ends(o, s, hs), run, a);
    GoesAppend(o, s, hs, more);
    all := hs + more;
  }

  lemma {:induction false} PassCapture(o: Options, s: Program, run: seq<Arrival>) returns (hs: seq<Happening>)
    requires Passes(o, s, [], [])
    ensures Passes(o, s, hs, run)
    decreases |run|
  {
    if run == [] {
      hs := [];
    } else {
      var init, a := run[..|run| - 1], run[|run| - 1];
      assert run == init + [a];
      hs := PassCapture(o, s, init);
      hs := PassNext(o, s, hs, init, a);
    }
  }

  // The end of the run.

  lemma {:induction false} DrainGoes(o: Options, s: Program, es: seq<Event<RxMsg>>) returns (hs: seq<Happening>)
    requires ProgramInv(o, s) && Possible(s.pipe, es, AnyMsg(), Handle(o))
    requires forall e | e in es :: !e.Rx? && !e.Finish?
    ensures Goes(o, s, hs)
    ensures var t := Ends(o, s, hs); t.rx == s.rx && t.pipe == Outcome(s.pipe, es, AnyMsg(), Handle(o))
    decreases |es|
  {
    if es == [] {
      hs := [];
    } else {
      DrainDoes(o, s, es[0]);
      GoesOne(o, s, Does(es[0]));
      var rest := DrainGoes(o, Happened(o, s, Does(es[0])), es[1..]);
      GoesAppend(o, s, [Does(es[0])], rest);
      hs := [Does(es[0])] + rest;
    }
  }

  lemma {:induction false} FinishRun(o: Options, s: Program) returns (hs: seq<Happening>)
    requires Quiet(o, s) && s.rx.todo == []
    ensures Goes(o, s, hs) && Ends(o, s, hs).rx == s.rx && Ends(o, s, hs).pipe.drain.Exited?
  {
    var h: Happening := Does(Finish);
    var t := Happened(o, s, h);
    ProgramKeeps(o, s, h, t);
    GoesOne(o, s, h);
    var es := CanFinish(RX_QUEUE_CAPACITY, AnyMsg(), Handle(o), IDLE, t.pipe);
    hs := DrainGoes(o, t, es);
    GoesAppend(o, s, [h], hs);
    hs := [h] + hs;
  }

  /** Whatever the datagrams, there is a run that receives them, drops nothing, and ends. */
  lemma {:induction false} CanEnd(o: Options, run: seq<Arrival>)
    returns (happenings: seq<Happening>, states: seq<Program>)
    ensures ProgramRun(o, happenings, states)
    ensures var s := states[|happenings|];
            s.pipe.drain.Exited? && s.rx.framer.st.droppedFull == 0 && SameDatagrams(Received(s.rx), run)
  {
    var plu: Plu := seq(PLU_BYTES, _ => 0);
    var ring := Ring(0, 0, 0, 0, seq(RX_QUEUE_CAPACITY, _ => RxMsg(0, 0, false, plu)), Idle, Waiting);
    var s := Program(Pipe(System(ring, History([], [], 0, 0)), false, false, Top, IDLE, 0), RX_START);
    QueueCapacity();
    InvInit(RX_QUEUE_CAPACITY, s.pipe.sys);
    happenings := PassCapture(o, s, run);
    var more := FinishRun(o, Ends(o, s, happenings));
    GoesAppend(o, s, happenings, more);
    happenings := happenings + more;
    states := StatesOf(o, s, happenings);
  }

  /** So for any datagrams that the offline program takes in whole, some live run ends with its very desk. */
  lemma {:induction false} CanMatchOffline(o: Options, offline: seq<Arrival>)
    returns (happenings: seq<Happening>, states: seq<Program>)
    requires EmptyQueues(offline) && After(FRAMER_INIT, offline).state.st.droppedFull == 0
    requires AllSane(After(FRAMER_INIT, offline).msgs)
    ensures ProgramRun(o, happenings, states) && states[|happenings|].pipe.drain.Exited?
    ensures states[|happenings|].pipe.acc.desk == ConsumeAll(START, After(FRAMER_INIT, offline).msgs, o)
  {
    happenings, states := CanEnd(o, offline);
    LiveRun(o, happenings, states, |happenings|);
    UndroppedRun(offline);
    SameUpdates(Received(states[|happenings|].rx), offline);
    SanePayloads(After(FRAMER_INIT, offline).msgs, states[|happenings|].pipe.sys.hist.committed);
    LiveIsOffline(o, happenings, states, |happenings|, offline);
  }

  lemma SanePayloads(a: seq<RxMsg>, b: seq<RxMsg>)
    requires AllSane(a) && Payloads(a) == Payloads(b)
    ensures AllSane(b)
  {
    assert |a| == |Payloads(a)| == |b|;
    forall i | 0 <= i < |b| ensures Decode.Sane(b[i].plu) {
      assert Payload(a[i]) == Payloads(a)[i] == Payloads(b)[i] == Payload(b[i]);
    }
  }
}
