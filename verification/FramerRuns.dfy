/** Laws of the framer over any run of segments, on a queue that may refuse any update at any time. */
module FramerRuns {
  import opened Wire
  import opened Segments
  import opened Sequences
  import opened Framer

  /** A datagram, its receive time, and which of its updates the queue had room for. */
  datatype Arrival = Arrival(buf: seq<Byte>, takes: nat -> bool, rxTsc: nat)

  function After(f: FramerState, run: seq<Arrival>): Framing {
    if run == [] then Framing(f, []) else
      var r := After(f, run[..|run| - 1]);
      var a := run[|run| - 1];
      var s := Framed(r.state, a.buf, a.takes, a.rxTsc);
      Framing(s.state, r.msgs + s.msgs)
  }

  // One delivery.

  function Payload(m: RxMsg): Found {
    Found(m.seqNo, m.plu)
  }

  function Payloads(msgs: seq<RxMsg>): seq<Found> {
    seq(|msgs|, i requires 0 <= i < |msgs| => Payload(msgs[i]))
  }

  lemma {:induction false} DeliverCounts(found: seq<Found>, takes: nat -> bool, pendingGap: bool, rxTsc: nat)
    ensures var d := Deliver(found, takes, pendingGap, rxTsc);
            && |d.msgs| + d.dropped == |found|
            && d.pendingGap == (pendingGap && d.msgs == [])
            && forall i | 0 <= i < |d.msgs| :: d.msgs[i].afterGap == (pendingGap && i == 0) && d.msgs[i].rxTsc == rxTsc
  {
    if found != [] {
      DeliverCounts(found[..|found| - 1], takes, pendingGap, rxTsc);
    }
  }

  lemma {:induction false} DeliverAll(found: seq<Found>, takes: nat -> bool, pendingGap: bool, rxTsc: nat)
    requires forall k: nat | k < |found| :: takes(k)
    ensures var d := Deliver(found, takes, pendingGap, rxTsc);
            d.dropped == 0 && Payloads(d.msgs) == found
  {
    if found != [] {
      DeliverAll(found[..|found| - 1], takes, pendingGap, rxTsc);
    }
  }

  lemma {:induction false} DeliverPrefix(a: seq<Found>, b: seq<Found>, takes: nat -> bool, pendingGap: bool, rxTsc: nat)
    requires a <= b
    ensures Deliver(a, takes, pendingGap, rxTsc).msgs <= Deliver(b, takes, pendingGap, rxTsc).msgs
    decreases |b|
  {
    if |a| < |b| {
      assert a <= b[..|b| - 1];
      DeliverPrefix(a, b[..|b| - 1], takes, pendingGap, rxTsc);
    } else {
      assert a == b;
    }
  }

  /** What a segment with these bodies pushes into a queue with room for its updates. */
  lemma {:induction false} WalkPushed(f: FramerState, buf: seq<Byte>, walk: Walk, room: nat, rxTsc: nat)
    requires Counts(buf) && BodiesOf(buf) == walk && |Updates(walk.bodies, FirstSeq(buf))| <= room
    ensures var r := Framed(f, buf, FirstOnes(room), rxTsc);
            && Payloads(r.msgs) == Updates(walk.bodies, FirstSeq(buf))
            && r.state.expectedSeq == FirstSeq(buf) + MessageCount(buf)
            && r.state.st.truncated == f.st.truncated + (if walk.truncated then 1 else 0)
            && r.state.st.droppedFull == f.st.droppedFull && r.state.st.messages == f.st.messages + |walk.bodies|
  {
    var g := Sequenced(f.(st := f.st.(datagrams := f.st.datagrams + 1)), FirstSeq(buf), MessageCount(buf));
    DeliverAll(Updates(walk.bodies, FirstSeq(buf)), FirstOnes(room), g.pendingGap, rxTsc);
  }

  /** Framing a segment of any bodies pushes, when there is room, exactly its updates, and counts no truncation. */
  lemma {:induction false} RoundTripPushed(f: FramerState, e: Envelope, bodies: seq<seq<Byte>>, first: Int64,
                                           room: nat, rxTsc: nat)
    requires e.Valid() && Fits(bodies) && bodies != [] && |Updates(bodies, first)| <= room
    ensures var r := Framed(f, Segment(e, bodies, first), FirstOnes(room), rxTsc);
            && Payloads(r.msgs) == Updates(bodies, first)
            && r.state.expectedSeq == first + |bodies|
            && r.state.st.truncated == f.st.truncated && r.state.st.droppedFull == f.st.droppedFull
            && r.state.st.messages == f.st.messages + |bodies|
  {
    FramingRoundTrip(e, bodies, first);
    WalkPushed(f, Segment(e, bodies, first), Walk(bodies, false), room, rxTsc);
  }

  /** What a cut datagram pushes is a prefix of what the whole one pushes into the same queue. */
  lemma {:induction false} CutPushesPrefix(f: FramerState, buf: seq<Byte>, n: nat, takes: nat -> bool, rxTsc: nat)
    requires HEADER_BYTES <= n <= |buf|
    ensures Framed(f, buf[..n], takes, rxTsc).msgs <= Framed(f, buf, takes, rxTsc).msgs
  {
    SameHeader(buf, n);
    CutIsPrefix(buf, n);
    if IsDeep(buf) && MessageCount(buf) != 0 {
      var g := Sequenced(f.(st := f.st.(datagrams := f.st.datagrams + 1)), FirstSeq(buf), MessageCount(buf));
      DeliverPrefix(UpdatesOf(buf[..n]), UpdatesOf(buf), takes, g.pendingGap, rxTsc);
    }
  }

  /**
    * A segment cut `r` bytes into the block of body `k` pushes exactly the updates of the bodies before it, and is
    * counted as truncated iff the length of that block arrived.
    */
  lemma {:induction false} CutPushed(f: FramerState, e: Envelope, bodies: seq<seq<Byte>>, first: Int64, k: nat, r: nat,
                                     room: nat, rxTsc: nat)
    requires e.Valid() && Fits(bodies) && k < |bodies| && |Updates(bodies[..k], first)| <= room && r < 2 + |bodies[k]|
    ensures var n := HEADER_BYTES + |Serial(bodies[..k])| + r;
            n <= |Segment(e, bodies, first)| &&
            var s := Framed(f, Segment(e, bodies, first)[..n], FirstOnes(room), rxTsc);
            && Payloads(s.msgs) == Updates(bodies[..k], first)
            && s.state.st.truncated == f.st.truncated + (if r >= 2 then 1 else 0)
            && s.state.expectedSeq == first + |bodies|
  {
    CutRoundTrip(e, bodies, first, k, r);
    var cut := Segment(e, bodies, first)[..HEADER_BYTES + |Serial(bodies[..k])| + r];
    WalkPushed(f, cut, Walk(bodies[..k], r >= 2), room, rxTsc);
  }

  /** Bytes after the announced payload change neither the messages nor the framer. */
  lemma {:induction false} TailIgnored(f: FramerState, buf: seq<Byte>, n: nat, takes: nat -> bool, rxTsc: nat)
    requires HEADER_BYTES <= n <= |buf| && HEADER_BYTES + PayloadLen(buf) <= n
    ensures Framed(f, buf[..n], takes, rxTsc) == Framed(f, buf, takes, rxTsc)
  {
    OnlyPayloadMatters(buf, n);
  }

  // Nothing is lost uncounted.

  lemma {:induction false} FramedCounts(f: FramerState, buf: seq<Byte>, takes: nat -> bool, rxTsc: nat)
    ensures var r := Framed(f, buf, takes, rxTsc);
            var st, st' := f.st, r.state.st;
            && st'.messages - st.messages ==
               (st'.filtered - st.filtered) + (st'.pushed - st.pushed) + (st'.droppedFull - st.droppedFull)
            && st'.pushed - st.pushed == |r.msgs|
            && st'.pushed - st.pushed + st'.droppedFull - st.droppedFull == |UpdatesOf(buf)|
            && st'.nonDeep - st.nonDeep == (if IsDeep(buf) then 0 else 1)
            && st'.datagrams - st.datagrams == (if IsDeep(buf) then 1 else 0)
            && st'.heartbeats - st.heartbeats == (if IsDeep(buf) && !Counts(buf) then 1 else 0)
  {
    if IsDeep(buf) && MessageCount(buf) != 0 {
      var g := Sequenced(f.(st := f.st.(datagrams := f.st.datagrams + 1)), FirstSeq(buf), MessageCount(buf));
      UpdatesBound(BodiesOf(buf).bodies, FirstSeq(buf));
      DeliverCounts(UpdatesOf(buf), takes, g.pendingGap, rxTsc);
    }
  }

  /** Only the newest are dropped: what a queue with `room` places takes is the first updates. */
  lemma {:induction false} FirstTaken(found: seq<Found>, room: nat, pendingGap: bool, rxTsc: nat)
    ensures Payloads(Deliver(found, FirstOnes(room), pendingGap, rxTsc).msgs) ==
            found[..if |found| <= room then |found| else room]
  {
    if found != [] {
      var n := |found| - 1;
      FirstOnesDelivered(found[..n], room, pendingGap, rxTsc);
      FirstTaken(found[..n], room, pendingGap, rxTsc);
    }
  }

  // What each counter counts.

  predicate Foreign(a: Arrival) {
    !IsDeep(a.buf)
  }

  predicate Heartbeat(a: Arrival) {
    IsDeep(a.buf) && MessageCount(a.buf) == 0
  }

  predicate CutShort(a: Arrival) {
    IsDeep(a.buf) && BodiesOf(a.buf).truncated
  }

  predicate NoPlu(body: seq<Byte>) {
    !IsPlu(body)
  }

  /** All whole messages of a run. */
  function AllBodies(run: seq<Arrival>): seq<seq<Byte>> {
    if run == [] then [] else
      var buf := run[|run| - 1].buf;
      AllBodies(run[..|run| - 1]) + if IsDeep(buf) then BodiesOf(buf).bodies else []
  }

  ghost predicate Tallies(st: RxStats, run: seq<Arrival>, bodies: seq<seq<Byte>>) {
    && st.nonDeep == Count(run, Foreign) && st.datagrams == |run| - Count(run, Foreign)
    && st.heartbeats == Count(run, Heartbeat) && st.truncated == Count(run, CutShort)
    && st.messages == |bodies| && st.filtered == Count(bodies, NoPlu)
    && st.pushed + st.droppedFull == Count(bodies, IsPlu)
  }

  lemma {:induction false} TalliesNext(f: FramerState, run: seq<Arrival>, bodies: seq<seq<Byte>>, a: Arrival,
                                       found: seq<seq<Byte>>)
    requires Tallies(f.st, run, bodies) && found == if IsDeep(a.buf) then BodiesOf(a.buf).bodies else []
    ensures Tallies(Framed(f, a.buf, a.takes, a.rxTsc).state.st, run + [a], bodies + found)
  {
    assert (run + [a])[..|run|] == run;
    CountAppend(bodies, found, NoPlu);
    CountAppend(bodies, found, IsPlu);
    CountOthers(found, IsPlu, NoPlu);
    FramedCounts(f, a.buf, a.takes, a.rxTsc);
    if IsDeep(a.buf) {
      UpdatesCounted(found, FirstSeq(a.buf));
    }
  }

  /** On every run: each counter is the number of datagrams, or of whole messages, of its kind. */
  lemma {:induction false} CountersOnRun(run: seq<Arrival>)
    ensures Tallies(After(FRAMER_INIT, run).state.st, run, AllBodies(run))
  {
    if run != [] {
      var n := |run| - 1;
      CountersOnRun(run[..n]);
      assert run == run[..n] + [run[n]];
      TalliesNext(After(FRAMER_INIT, run[..n]).state, run[..n], AllBodies(run[..n]), run[n],
                  if IsDeep(run[n].buf) then BodiesOf(run[n].buf).bodies else []);
    }
  }

  function UpdateCount(run: seq<Arrival>): nat {
    if run == [] then 0 else UpdateCount(run[..|run| - 1]) + |UpdatesOf(run[|run| - 1].buf)|
  }

  /**
    * On every run, every message taken out of the framing was filtered, pushed or dropped, and every datagram is
    * counted.
    */
  lemma {:induction false} MessagesConserved(run: seq<Arrival>)
    ensures var r := After(FRAMER_INIT, run);
            var st := r.state.st;
            && st.messages == st.filtered + st.pushed + st.droppedFull
            && st.pushed == |r.msgs| && st.pushed + st.droppedFull == UpdateCount(run)
            && st.datagrams + st.nonDeep == |run| && st.datagrams == |Heads(run)| + st.heartbeats
  {
    if run != [] {
      MessagesConserved(run[..|run| - 1]);
      var a := run[|run| - 1];
      FramedCounts(After(FRAMER_INIT, run[..|run| - 1]).state, a.buf, a.takes, a.rxTsc);
    }
  }

  // Segments that cannot overrun an empty queue.

  const RX_QUEUE_CAPACITY: nat := 1024
  const SAFE_BYTES: nat := 32840

  function Excess(found: nat, room: nat): nat {
    if found > room then found - room else 0
  }

  /** Exactly the updates beyond the free places are dropped. */
  lemma {:induction false} DropCount(f: FramerState, buf: seq<Byte>, room: nat, rxTsc: nat)
    ensures Framed(f, buf, FirstOnes(room), rxTsc).state.st.droppedFull ==
            f.st.droppedFull + Excess(|UpdatesOf(buf)|, room)
  {
    if Counts(buf) {
      var g := Sequenced(f.(st := f.st.(datagrams := f.st.datagrams + 1)), FirstSeq(buf), MessageCount(buf));
      FirstOnesDelivered(UpdatesOf(buf), room, g.pendingGap, rxTsc);
      DeliverCounts(UpdatesOf(buf), FirstOnes(room), g.pendingGap, rxTsc);
    }
  }

  /** So a segment below 32840 bytes, framed into an empty queue, is pushed whole. */
  lemma {:induction false} NoDrop(f: FramerState, buf: seq<Byte>, rxTsc: nat)
    requires |buf| < SAFE_BYTES
    ensures var r := Framed(f, buf, FirstOnes(RX_QUEUE_CAPACITY), rxTsc);
            r.state.st.droppedFull == f.st.droppedFull && Payloads(r.msgs) == UpdatesOf(buf)
  {
    FitsInQueue(buf);
    DropCount(f, buf, RX_QUEUE_CAPACITY, rxTsc);
    FramedUndropped(f, buf, FirstOnes(RX_QUEUE_CAPACITY), rxTsc);
  }

  lemma FitsInQueue(buf: seq<Byte>)
    requires |buf| < SAFE_BYTES
    ensures |UpdatesOf(buf)| <= RX_QUEUE_CAPACITY
  {
    if HasHeader(buf) {
      UpdatesPerSegment(buf);
    }
  }

  /** No larger limit on the bytes would do: at 32840 there is a segment of which the queue refuses an update. */
  lemma {:induction false} NoDropIsSharp(f: FramerState, e: Envelope, plu: seq<Byte>, first: Int64, rxTsc: nat)
    requires e.Valid() && e.tail == [] && |plu| == PLU_BYTES && IsPlu(plu)
    ensures var buf := Segment(e, seq(1025, _ => plu), first);
            && |buf| == SAFE_BYTES
            && Framed(f, buf, FirstOnes(RX_QUEUE_CAPACITY), rxTsc).state.st.droppedFull == f.st.droppedFull + 1
  {
    UpdatesPerSegmentMet(e, plu, 1025, first);
    DropCount(f, Segment(e, seq(1025, _ => plu), first), RX_QUEUE_CAPACITY, rxTsc);
  }

  /** The updates in the datagrams, one after the other. */
  function AllUpdates(run: seq<Arrival>): seq<Found> {
    if run == [] then [] else AllUpdates(run[..|run| - 1]) + UpdatesOf(run[|run| - 1].buf)
  }

  lemma {:induction false} AllUpdatesLast(run: seq<Arrival>, a: Arrival)
    ensures AllUpdates(run + [a]) == AllUpdates(run) + UpdatesOf(a.buf)
  {
    assert (run + [a])[..|run|] == run;
  }

  lemma {:induction false} AfterLast(f: FramerState, run: seq<Arrival>, a: Arrival)
    ensures var r := After(f, run);
            var s := Framed(r.state, a.buf, a.takes, a.rxTsc);
            After(f, run + [a]) == Framing(s.state, r.msgs + s.msgs)
  {
    assert (run + [a])[..|run|] == run;
  }

  /** A queue that is empty whenever a segment arrives, as the offline program has it. */
  ghost predicate EmptyQueues(run: seq<Arrival>) {
    forall i | 0 <= i < |run| :: run[i].takes == FirstOnes(RX_QUEUE_CAPACITY)
  }

  function Excesses(run: seq<Arrival>): nat {
    if run == [] then 0
    else Excesses(run[..|run| - 1]) + Excess(|UpdatesOf(run[|run| - 1].buf)|, RX_QUEUE_CAPACITY)
  }

  /** No segment has more updates than the queue has slots. */
  ghost predicate AllFit(run: seq<Arrival>) {
    forall i | 0 <= i < |run| :: |UpdatesOf(run[i].buf)| <= RX_QUEUE_CAPACITY
  }

  lemma AllFitLast(run: seq<Arrival>)
    requires run != []
    ensures var n := |run| - 1; AllFit(run) <==> AllFit(run[..n]) && |UpdatesOf(run[n].buf)| <= RX_QUEUE_CAPACITY
  {
    var n := |run| - 1;
    if AllFit(run[..n]) && |UpdatesOf(run[n].buf)| <= RX_QUEUE_CAPACITY {
      forall i | 0 <= i < |run| ensures |UpdatesOf(run[i].buf)| <= RX_QUEUE_CAPACITY {
        if i < n {
          assert run[..n][i] == run[i];
        }
      }
    }
  }

  lemma {:induction false} NoExcess(run: seq<Arrival>)
    ensures Excesses(run) == 0 <==> AllFit(run)
  {
    if run != [] {
      NoExcess(run[..|run| - 1]);
      AllFitLast(run);
    }
  }

  lemma {:induction false} DropCountOnRun(run: seq<Arrival>)
    requires EmptyQueues(run)
    ensures After(FRAMER_INIT, run).state.st.droppedFull == Excesses(run)
  {
    if run != [] {
      var n := |run| - 1;
      DropCountOnRun(run[..n]);
      assert run[n].takes == FirstOnes(RX_QUEUE_CAPACITY);
      DropCount(After(FRAMER_INIT, run[..n]).state, run[n].buf, RX_QUEUE_CAPACITY, run[n].rxTsc);
    }
  }

  /**
    * With the queue empty whenever a segment arrives, the updates dropped on a run are those beyond 1024 of each
    * segment. So dropped_full is 0 iff no segment has more than 1024 updates, and then every update was pushed, in
    * order.
    */
  lemma {:induction false} DropsOnRun(run: seq<Arrival>)
    requires EmptyQueues(run)
    ensures var r := After(FRAMER_INIT, run);
            && r.state.st.droppedFull == Excesses(run)
            && (r.state.st.droppedFull == 0 <==> AllFit(run))
            && (r.state.st.droppedFull == 0 ==> Payloads(r.msgs) == AllUpdates(run))
  {
    DropCountOnRun(run);
    NoExcess(run);
    if After(FRAMER_INIT, run).state.st.droppedFull == 0 {
      UndroppedRun(run);
    }
  }

  /** In particular runs of segments below 32840 bytes lose nothing. */
  lemma {:induction false} NoDropOnRun(run: seq<Arrival>)
    requires EmptyQueues(run) && forall i | 0 <= i < |run| :: |run[i].buf| < SAFE_BYTES
    ensures var r := After(FRAMER_INIT, run);
            r.state.st.droppedFull == 0 && Payloads(r.msgs) == AllUpdates(run)
  {
    forall i | 0 <= i < |run| ensures |UpdatesOf(run[i].buf)| <= RX_QUEUE_CAPACITY {
      FitsInQueue(run[i].buf);
    }
    DropsOnRun(run);
  }

  lemma PayloadsAdd(a: seq<RxMsg>, b: seq<RxMsg>)
    ensures Payloads(a + b) == Payloads(a) + Payloads(b)
  {
  }

  lemma {:induction false} DeliverUndropped(found: seq<Found>, takes: nat -> bool, pendingGap: bool, rxTsc: nat)
    requires Deliver(found, takes, pendingGap, rxTsc).dropped == 0
    ensures Payloads(Deliver(found, takes, pendingGap, rxTsc).msgs) == found
  {
    if found != [] {
      DeliverUndropped(found[..|found| - 1], takes, pendingGap, rxTsc);
    }
  }

  lemma {:induction false} FramedUndropped(f: FramerState, buf: seq<Byte>, takes: nat -> bool, rxTsc: nat)
    ensures var r := Framed(f, buf, takes, rxTsc);
            && r.state.st.droppedFull >= f.st.droppedFull
            && (r.state.st.droppedFull == f.st.droppedFull ==> Payloads(r.msgs) == UpdatesOf(buf))
  {
    if Counts(buf) {
      var g := Sequenced(f.(st := f.st.(datagrams := f.st.datagrams + 1)), FirstSeq(buf), MessageCount(buf));
      if Deliver(UpdatesOf(buf), takes, g.pendingGap, rxTsc).dropped == 0 {
        DeliverUndropped(UpdatesOf(buf), takes, g.pendingGap, rxTsc);
      }
    }
  }

  /** Whatever the queue's pattern: if dropped_full is 0, every update of every datagram was pushed, in order. */
  lemma {:induction false} UndroppedRun(run: seq<Arrival>)
    requires After(FRAMER_INIT, run).state.st.droppedFull == 0
    ensures Payloads(After(FRAMER_INIT, run).msgs) == AllUpdates(run)
  {
    if run != [] {
      var n := |run| - 1;
      var r := After(FRAMER_INIT, run[..n]);
      FramedUndropped(r.state, run[n].buf, run[n].takes, run[n].rxTsc);
      UndroppedRun(run[..n]);
      PayloadsAdd(r.msgs, Framed(r.state, run[n].buf, run[n].takes, run[n].rxTsc).msgs);
    }
  }

  /** Whatever is pushed is one of the segment's updates. */
  lemma {:induction false} DeliverOnly(found: seq<Found>, takes: nat -> bool, pendingGap: bool, rxTsc: nat)
    ensures forall m | m in Deliver(found, takes, pendingGap, rxTsc).msgs :: Payload(m) in found
  {
    if found != [] {
      DeliverOnly(found[..|found| - 1], takes, pendingGap, rxTsc);
    }
  }

  // Sequence accounting against the list of segment headers.

  datatype Head = Head(first: int, count: nat)

  predicate Counts(buf: seq<Byte>) {
    IsDeep(buf) && MessageCount(buf) != 0
  }

  /** The headers that advance the sequence: DEEP segments that are not heartbeats. */
  function Heads(run: seq<Arrival>): seq<Head> {
    if run == [] then [] else
      var buf := run[|run| - 1].buf;
      Heads(run[..|run| - 1]) + if Counts(buf) then [Head(FirstSeq(buf), MessageCount(buf))] else []
  }

  /** How far segment i starts from where its predecessor ended. */
  function Jump(heads: seq<Head>, i: nat): int
    requires 0 < i < |heads|
  {
    heads[i].first - (heads[i - 1].first + heads[i - 1].count)
  }

  /**
    * What the jumps add up to. A jump after a segment that ended below 0 is not looked at, because the framer takes a
    * negative expected number for "no segment yet"; those sum up to `unseen`.
    */
  datatype Jumps = Jumps(messages: nat, gaps: nat, missed: nat, reorders: nat, back: nat, unseen: int)

  const NO_JUMPS: Jumps := Jumps(0, 0, 0, 0, 0, 0)

  function EndOf(h: Head): int {
    h.first + h.count
  }

  /** One header more, `d` from where its predecessor ended; `seen` if the framer compares the two. */
  function Jumped(j: Jumps, count: nat, d: int, seen: bool): Jumps {
    Jumps(j.messages + count,
          j.gaps + (if seen && d > 0 then 1 else 0), j.missed + (if seen && d > 0 then d else 0),
          j.reorders + (if seen && d < 0 then 1 else 0), j.back + (if seen && d < 0 then -d else 0),
          j.unseen + if seen then 0 else d)
  }

  function JumpsOf(heads: seq<Head>): Jumps {
    if heads == [] then NO_JUMPS else
      var n := |heads| - 1;
      if n == 0 then Jumped(JumpsOf(heads[..n]), heads[n].count, 0, true)
      else Jumped(JumpsOf(heads[..n]), heads[n].count, Jump(heads, n), EndOf(heads[n - 1]) >= 0)
  }

  lemma {:induction false} JumpsAddUp(heads: seq<Head>)
    requires heads != []
    ensures var j := JumpsOf(heads);
            EndOf(heads[|heads| - 1]) == heads[0].first + j.messages + j.missed - j.back + j.unseen
    decreases |heads|
  {
    if |heads| > 1 {
      JumpsAddUp(heads[..|heads| - 1]);
    } else {
      assert JumpsOf(heads[..0]) == NO_JUMPS;
    }
  }

  lemma {:induction false} AllSeen(heads: seq<Head>)
    requires forall h | h in heads :: EndOf(h) >= 0
    ensures JumpsOf(heads).unseen == 0
  {
    if heads != [] {
      AllSeen(heads[..|heads| - 1]);
    }
  }

  lemma {:induction false} JumpsLast(heads: seq<Head>, h: Head)
    ensures JumpsOf(heads + [h]) ==
            if heads == [] then Jumped(NO_JUMPS, h.count, 0, true)
            else Jumped(JumpsOf(heads), h.count, h.first - EndOf(heads[|heads| - 1]), EndOf(heads[|heads| - 1]) >= 0)
  {
    assert (heads + [h])[..|heads|] == heads;
  }

  ghost predicate Accounted(f: FramerState, heads: seq<Head>) {
    var j := JumpsOf(heads);
    && f.st.gaps == j.gaps && f.st.gapMsgs == j.missed && f.st.reorders == j.reorders
    && f.expectedSeq == if heads == [] then -1 else EndOf(heads[|heads| - 1])
  }

  lemma {:induction false} AccountedNext(f: FramerState, heads: seq<Head>, a: Arrival)
    requires Accounted(f, heads)
    ensures Accounted(Framed(f, a.buf, a.takes, a.rxTsc).state,
                      heads + if Counts(a.buf) then [Head(FirstSeq(a.buf), MessageCount(a.buf))] else [])
  {
    if Counts(a.buf) {
      JumpsLast(heads, Head(FirstSeq(a.buf), MessageCount(a.buf)));
    } else {
      assert heads + [] == heads;
    }
  }

  lemma {:induction false} AccountedAlways(run: seq<Arrival>)
    ensures Accounted(After(FRAMER_INIT, run).state, Heads(run))
  {
    if run != [] {
      var n := |run| - 1;
      AccountedAlways(run[..n]);
      AccountedNext(After(FRAMER_INIT, run[..n]).state, Heads(run[..n]), run[n]);
    }
  }

  /**
    * On every run: the gap and reorder counters are those of the header list, and the next expected number is where the
    * first segment began, plus the messages announced, plus those missed, minus the backward jumps, plus the jumps the
    * framer did not look at, of which there are none while no segment ends below 0.
    */
  lemma {:induction false} SequenceAccounting(run: seq<Arrival>)
    requires Heads(run) != []
    ensures var f, j := After(FRAMER_INIT, run).state, JumpsOf(Heads(run));
            && f.st.gaps == j.gaps && f.st.gapMsgs == j.missed && f.st.reorders == j.reorders
            && f.expectedSeq == Heads(run)[0].first + j.messages + f.st.gapMsgs - j.back + j.unseen
            && ((forall h | h in Heads(run) :: EndOf(h) >= 0) ==> j.unseen == 0)
  {
    AccountedAlways(run);
    JumpsAddUp(Heads(run));
    if forall h | h in Heads(run) :: EndOf(h) >= 0 {
      AllSeen(Heads(run));
    }
  }

  lemma {:induction false} HeadsLast(run: seq<Arrival>, a: Arrival)
    ensures Heads(run + [a]) ==
            Heads(run) + if Counts(a.buf) then [Head(FirstSeq(a.buf), MessageCount(a.buf))] else []
  {
    assert (run + [a])[..|run|] == run;
  }

  /** After a segment that ends below 0 the next one may start anywhere: no gap and no reorder is counted. */
  lemma {:induction false} JumpUnseen(e: Envelope, bodies: seq<seq<Byte>>, first: Int64, more: seq<seq<Byte>>,
                                      second: Int64) returns (run: seq<Arrival>)
    requires e.Valid() && Fits(bodies) && Fits(more) && bodies != [] && more != [] && first + |bodies| < 0
    ensures Heads(run) == [Head(first, |bodies|), Head(second, |more|)]
    ensures JumpsOf(Heads(run)).unseen == second - (first + |bodies|)
    ensures var st := After(FRAMER_INIT, run).state.st;
            st.gaps == 0 && st.gapMsgs == 0 && st.reorders == 0
  {
    var a := Arrival(Segment(e, bodies, first), FirstOnes(0), 0);
    var b := Arrival(Segment(e, more, second), FirstOnes(0), 0);
    run := [a] + [b];
    FramingRoundTrip(e, bodies, first);
    FramingRoundTrip(e, more, second);
    HeadsLast([], a);
    HeadsLast([a], b);
    assert [] + [a] == [a];
    AccountedAlways(run);
    TwoJumps(Head(first, |bodies|), Head(second, |more|));
  }

  lemma {:induction false} TwoJumps(g: Head, h: Head)
    requires EndOf(g) < 0
    ensures JumpsOf([g, h]) == Jumps(g.count + h.count, 0, 0, 0, 0, h.first - EndOf(g))
  {
    JumpsLast([], g);
    JumpsLast([g], h);
    assert [] + [g] == [g] && [g] + [h] == [g, h];
  }

  /** So six messages go missing between -1 and 5, and the counters say that none did. */
  lemma {:induction false} SixUnseen(e: Envelope) returns (run: seq<Arrival>)
    requires e.Valid()
    ensures Heads(run) == [Head(-2, 1), Head(5, 1)] && JumpsOf(Heads(run)).unseen == 6
    ensures After(FRAMER_INIT, run).state.st.gapMsgs == 0
  {
    run := JumpUnseen(e, [[]], -2, [[]], 5);
  }

  // The gap flag.

  /** For each message pushed on a run, how many gaps had been counted by then. */
  function GapsAtPush(run: seq<Arrival>): (at: seq<nat>)
    ensures |at| == |After(FRAMER_INIT, run).msgs|
  {
    if run == [] then [] else
      var before := After(FRAMER_INIT, run[..|run| - 1]).msgs;
      GapsAtPush(run[..|run| - 1]) +
        seq(|After(FRAMER_INIT, run).msgs| - |before|, _ => After(FRAMER_INIT, run).state.st.gaps)
  }

  function GapsBefore(at: seq<nat>, k: nat): nat
    requires k <= |at|
  {
    if k == 0 then 0 else at[k - 1]
  }

  /** A message carries AFTER_GAP iff some gap was counted since the message before it, however long ago that was. */
  ghost predicate Flagged(r: Framing, at: seq<nat>)
    requires |at| == |r.msgs|
  {
    && (forall k | 0 <= k < |r.msgs| :: r.msgs[k].afterGap <==> at[k] > GapsBefore(at, k))
    && (r.state.pendingGap <==> r.state.st.gaps > GapsBefore(at, |at|))
    && r.state.st.gaps >= GapsBefore(at, |at|)
  }

  /** Of what one arrival pushes, only the first message can carry the flag. */
  ghost predicate FlagsFirst(f: FramerState, s: Framing) {
    var pending := f.pendingGap || s.state.st.gaps > f.st.gaps;
    && s.state.st.gaps >= f.st.gaps
    && (forall i | 0 <= i < |s.msgs| :: s.msgs[i].afterGap == (pending && i == 0))
    && s.state.pendingGap == (pending && s.msgs == [])
  }

  lemma {:induction false} FramedFlags(f: FramerState, a: Arrival)
    ensures FlagsFirst(f, Framed(f, a.buf, a.takes, a.rxTsc))
  {
    if Counts(a.buf) {
      var g := Sequenced(f.(st := f.st.(datagrams := f.st.datagrams + 1)), FirstSeq(a.buf), MessageCount(a.buf));
      DeliverCounts(UpdatesOf(a.buf), a.takes, g.pendingGap, a.rxTsc);
    }
  }

  lemma FlagStays(r: Framing, at: seq<nat>, msgs: seq<RxMsg>, more: seq<nat>, k: nat)
    requires |at| == |r.msgs| && Flagged(r, at) && k < |at|
    ensures (r.msgs + msgs)[k].afterGap <==> (at + more)[k] > GapsBefore(at + more, k)
  {
    assert GapsBefore(at + more, k) == GapsBefore(at, k);
  }

  lemma FlagNew(r: Framing, at: seq<nat>, s: Framing, more: seq<nat>, k: nat)
    requires |at| == |r.msgs| && Flagged(r, at) && FlagsFirst(r.state, s) && k < |s.msgs| == |more|
    requires forall i | 0 <= i < |more| :: more[i] == s.state.st.gaps
    ensures s.msgs[k].afterGap <==> (at + more)[|at| + k] > GapsBefore(at + more, |at| + k)
  {
    if k == 0 {
      assert GapsBefore(at + more, |at|) == GapsBefore(at, |at|);
    }
  }

  lemma {:induction false} FlaggedNext(r: Framing, at: seq<nat>, s: Framing, more: seq<nat>)
    requires |at| == |r.msgs| && Flagged(r, at) && FlagsFirst(r.state, s)
    requires |more| == |s.msgs| && forall i | 0 <= i < |more| :: more[i] == s.state.st.gaps
    ensures Flagged(Framing(s.state, r.msgs + s.msgs), at + more)
  {
    var msgs, all := r.msgs + s.msgs, at + more;
    forall k | 0 <= k < |msgs| ensures msgs[k].afterGap <==> all[k] > GapsBefore(all, k) {
      if k < |at| {
        FlagStays(r, at, s.msgs, more, k);
      } else {
        FlagNew(r, at, s, more, k - |at|);
      }
    }
    FlagsEnd(r, at, s, more);
  }

  lemma FlagsEnd(r: Framing, at: seq<nat>, s: Framing, more: seq<nat>)
    requires |at| == |r.msgs| && Flagged(r, at) && FlagsFirst(r.state, s)
    requires |more| == |s.msgs| && forall i | 0 <= i < |more| :: more[i] == s.state.st.gaps
    ensures var last := GapsBefore(at + more, |at + more|);
            (s.state.pendingGap <==> s.state.st.gaps > last) && s.state.st.gaps >= last
  {
    if more == [] {
      assert at + more == at;
    }
  }

  /** On every run, and whatever lies between: heartbeats, foreign datagrams, segments that push nothing. */
  lemma {:induction false} GapFlag(run: seq<Arrival>)
    ensures Flagged(After(FRAMER_INIT, run), GapsAtPush(run))
  {
    if run != [] {
      var n := |run| - 1;
      var r, a := After(FRAMER_INIT, run[..n]), run[n];
      var s := Framed(r.state, a.buf, a.takes, a.rxTsc);
      GapFlag(run[..n]);
      FramedFlags(r.state, a);
      FlaggedNext(r, GapsAtPush(run[..n]), s, seq(|s.msgs|, _ => s.state.st.gaps));
    }
  }
}
