/** Segments to queue: sequence accounting, block walk, filter, drop-newest. */
module Framer {
  import opened Wire
  import opened SpscQueue

  datatype RxMsg = RxMsg(rxTsc: nat, seqNo: int, afterGap: bool, plu: Plu)

  datatype RxStats = RxStats(datagrams: nat, nonDeep: nat, heartbeats: nat, messages: nat, filtered: nat, pushed: nat,
                             droppedFull: nat, truncated: nat, gaps: nat, gapMsgs: nat, reorders: nat)

  /** expected_seq is -1 before the first segment. pending_flags only ever holds the gap flag. */
  datatype FramerState = FramerState(expectedSeq: int, pendingGap: bool, st: RxStats)

  const FRAMER_INIT := FramerState(-1, false, RxStats(0, 0, 0, 0, 0, 0, 0, 0, 0, 0, 0))

  // What one segment does, as a function.

  function Sequenced(f: FramerState, first: int, count: nat): FramerState {
    if f.expectedSeq >= 0 && first > f.expectedSeq then
      FramerState(first + count, true, f.st.(gaps := f.st.gaps + 1, gapMsgs := f.st.gapMsgs + (first - f.expectedSeq)))
    else if f.expectedSeq >= 0 && first < f.expectedSeq then
      FramerState(first + count, f.pendingGap, f.st.(reorders := f.st.reorders + 1))
    else
      f.(expectedSeq := first + count)
  }

  /** `takes(k)` says whether the queue has room for the k-th update; the first one pushed carries the pending flag. */
  datatype Delivery = Delivery(msgs: seq<RxMsg>, dropped: nat, pendingGap: bool)

  function Deliver(found: seq<Found>, takes: nat -> bool, pendingGap: bool, rxTsc: nat): Delivery {
    if found == [] then Delivery([], 0, pendingGap) else
      var k := |found| - 1;
      var d := Deliver(found[..k], takes, pendingGap, rxTsc);
      if takes(k) then Delivery(d.msgs + [RxMsg(rxTsc, found[k].seqNo, d.pendingGap, found[k].plu)], d.dropped, false)
      else d.(dropped := d.dropped + 1)
  }

  /** The queue takes updates until it is full. */
  function FirstOnes(room: nat): nat -> bool {
    k => k < room
  }

  datatype Framing = Framing(state: FramerState, msgs: seq<RxMsg>)

  function Framed(f: FramerState, buf: seq<Byte>, takes: nat -> bool, rxTsc: nat): Framing {
    if !IsDeep(buf) then
      Framing(f.(st := f.st.(nonDeep := f.st.nonDeep + 1)), [])
    else if MessageCount(buf) == 0 then
      Framing(f.(st := f.st.(datagrams := f.st.datagrams + 1, heartbeats := f.st.heartbeats + 1)), [])
    else
      var g := Sequenced(f.(st := f.st.(datagrams := f.st.datagrams + 1)), FirstSeq(buf), MessageCount(buf));
      Walked(g, BodiesOf(buf), FirstSeq(buf), takes, rxTsc)
  }

  function Walked(g: FramerState, walk: Walk, first: int, takes: nat -> bool, rxTsc: nat): Framing {
    var found := Updates(walk.bodies, first);
    Settled(g, |walk.bodies|, |found|, walk.truncated, Deliver(found, takes, g.pendingGap, rxTsc))
  }

  function Settled(g: FramerState, bodies: nat, found: nat, truncated: bool, d: Delivery): Framing {
    Framing(
      FramerState(g.expectedSeq, d.pendingGap, Tally(g.st, bodies, found, |d.msgs|, d.dropped).(
        truncated := g.st.truncated + if truncated then 1 else 0)),
      d.msgs)
  }

  function Tally(st: RxStats, bodies: nat, found: nat, pushed: nat, dropped: nat): RxStats {
    st.(messages := st.messages + bodies, filtered := st.filtered + (if found <= bodies then bodies - found else 0),
        pushed := st.pushed + pushed, droppedFull := st.droppedFull + dropped)
  }

  /** What one whole block does. */
  function Blocked(g: FramerState, body: seq<Byte>, seqNo: int, rxTsc: nat, room: bool): Framing {
    var st := g.st.(messages := g.st.messages + 1);
    if !IsPlu(body) then
      Framing(g.(st := st.(filtered := st.filtered + 1)), [])
    else if !room then
      Framing(g.(st := st.(droppedFull := st.droppedFull + 1)), [])
    else
      Framing(FramerState(g.expectedSeq, false, st.(pushed := st.pushed + 1)),
              [RxMsg(rxTsc, seqNo, g.pendingGap, body[..PLU_BYTES])])
  }

  /** The walk over one block more, on a queue with `room` free slots at its start. */
  lemma {:induction false} WalkedLast(g: FramerState, bodies: seq<seq<Byte>>, body: seq<Byte>, first: int, room: nat,
                                      rxTsc: nat)
    ensures var r := Walked(g, Walk(bodies, false), first, FirstOnes(room), rxTsc);
            var b := Blocked(r.state, body, first + |bodies|, rxTsc, |r.msgs| < room);
            && |r.msgs| <= room
            && Walked(g, Walk(bodies + [body], false), first, FirstOnes(room), rxTsc) ==
               Framing(b.state, r.msgs + b.msgs)
  {
    UpdatesBound(bodies, first);
    FirstOnesDelivered(Updates(bodies, first), room, g.pendingGap, rxTsc);
    if IsPlu(body) {
      WalkedPlu(g, bodies, body, first, FirstOnes(room), rxTsc);
    } else {
      WalkedOther(g, bodies, body, first, FirstOnes(room), rxTsc);
    }
  }

  lemma {:induction false} WalkedPlu(g: FramerState, bodies: seq<seq<Byte>>, body: seq<Byte>, first: int,
                                     takes: nat -> bool, rxTsc: nat)
    requires IsPlu(body)
    ensures var r := Walked(g, Walk(bodies, false), first, takes, rxTsc);
            var b := Blocked(r.state, body, first + |bodies|, rxTsc, takes(|Updates(bodies, first)|));
            Walked(g, Walk(bodies + [body], false), first, takes, rxTsc) == Framing(b.state, r.msgs + b.msgs)
  {
    var found := Updates(bodies, first);
    var d := Deliver(found, takes, g.pendingGap, rxTsc);
    UpdatesBound(bodies, first);
    UpdatesLast(bodies, body, first);
    DeliverLast(found, Found(first + |bodies|, body[..PLU_BYTES]), takes, g.pendingGap, rxTsc);
    SettledPlu(g, |bodies|, |found|, d, body, first + |bodies|, rxTsc, takes(|found|));
  }

  lemma {:induction false} WalkedOther(g: FramerState, bodies: seq<seq<Byte>>, body: seq<Byte>, first: int,
                                       takes: nat -> bool, rxTsc: nat)
    requires !IsPlu(body)
    ensures var r := Walked(g, Walk(bodies, false), first, takes, rxTsc);
            var b := Blocked(r.state, body, first + |bodies|, rxTsc, takes(|Updates(bodies, first)|));
            Walked(g, Walk(bodies + [body], false), first, takes, rxTsc) == Framing(b.state, r.msgs + b.msgs)
  {
    var found := Updates(bodies, first);
    var d := Deliver(found, takes, g.pendingGap, rxTsc);
    UpdatesBound(bodies, first);
    UpdatesLast(bodies, body, first);
    assert found + [] == found;
    SettledOther(g, |bodies|, |found|, d, body, first + |bodies|, rxTsc, takes(|found|));
  }

  lemma {:induction false} SettledPlu(g: FramerState, bodies: nat, found: nat, d: Delivery, body: seq<Byte>, seqNo: int,
                                      rxTsc: nat, room: bool)
    requires found <= bodies && IsPlu(body)
    ensures var r := Settled(g, bodies, found, false, d);
            var b := Blocked(r.state, body, seqNo, rxTsc, room);
            var last := RxMsg(rxTsc, seqNo, d.pendingGap, body[..PLU_BYTES]);
            var d' := if room then Delivery(d.msgs + [last], d.dropped, false) else d.(dropped := d.dropped + 1);
            Settled(g, bodies + 1, found + 1, false, d') == Framing(b.state, r.msgs + b.msgs)
  {
    assert d.msgs + [] == d.msgs;
  }

  lemma {:induction false} SettledOther(g: FramerState, bodies: nat, found: nat, d: Delivery, body: seq<Byte>,
                                        seqNo: int, rxTsc: nat, room: bool)
    requires found <= bodies && !IsPlu(body)
    ensures var r := Settled(g, bodies, found, false, d);
            var b := Blocked(r.state, body, seqNo, rxTsc, room);
            Settled(g, bodies + 1, found, false, d) == Framing(b.state, r.msgs + b.msgs)
  {
    assert d.msgs + [] == d.msgs;
  }

  lemma {:induction false} UpdatesBound(bodies: seq<seq<Byte>>, first: int)
    ensures |Updates(bodies, first)| <= |bodies|
  {
    if bodies != [] {
      UpdatesBound(bodies[..|bodies| - 1], first);
    }
  }

  lemma {:induction false} UpdatesLast(bodies: seq<seq<Byte>>, body: seq<Byte>, first: int)
    ensures Updates(bodies + [body], first) ==
            Updates(bodies, first) + if IsPlu(body) then [Found(first + |bodies|, body[..PLU_BYTES])] else []
  {
    assert (bodies + [body])[..|bodies|] == bodies;
  }

  lemma {:induction false} DeliverLast(found: seq<Found>, u: Found, takes: nat -> bool, pendingGap: bool, rxTsc: nat)
    ensures var d := Deliver(found, takes, pendingGap, rxTsc);
            Deliver(found + [u], takes, pendingGap, rxTsc) ==
            if takes(|found|) then Delivery(d.msgs + [RxMsg(rxTsc, u.seqNo, d.pendingGap, u.plu)], d.dropped, false)
            else d.(dropped := d.dropped + 1)
  {
    assert (found + [u])[..|found|] == found;
  }

  lemma {:induction false} FirstOnesDelivered(found: seq<Found>, room: nat, pendingGap: bool, rxTsc: nat)
    ensures |Deliver(found, FirstOnes(room), pendingGap, rxTsc).msgs| == if |found| <= room then |found| else room
  {
    if found != [] {
      FirstOnesDelivered(found[..|found| - 1], room, pendingGap, rxTsc);
    }
  }

  // The loop's view: the bodies walked so far, and what is still ahead.

  /** `bodies`, then what the walk finds from `pos` on, make up the whole walk. */
  ghost predicate Ahead(whole: Walk, bodies: seq<seq<Byte>>, buf: seq<Byte>, pos: nat, end: nat, left: nat)
    requires end <= |buf|
  {
    var rest := Blocks(buf, pos, end, left);
    whole == Walk(bodies + rest.bodies, rest.truncated)
  }

  lemma AheadFirst(buf: seq<Byte>)
    requires HasHeader(buf)
    ensures Ahead(BodiesOf(buf), [], buf, HEADER_BYTES, End(buf), MessageCount(buf))
  {
  }

  lemma {:induction false} AheadNext(whole: Walk, bodies: seq<seq<Byte>>, buf: seq<Byte>, pos: nat, next: nat, end: nat,
                                     left: nat)
    requires 0 < left && pos + 2 <= next <= end <= |buf| && next == pos + 2 + Field(buf, pos, 2)
    requires Ahead(whole, bodies, buf, pos, end, left)
    ensures Ahead(whole, bodies + [buf[pos + 2..next]], buf, next, end, left - 1)
  {
    var rest := Blocks(buf, next, end, left - 1).bodies;
    assert bodies + ([buf[pos + 2..next]] + rest) == bodies + [buf[pos + 2..next]] + rest;
  }

  lemma {:induction false} AheadEnd(whole: Walk, bodies: seq<seq<Byte>>, buf: seq<Byte>, pos: nat, end: nat, left: nat)
    requires end <= |buf| && Ahead(whole, bodies, buf, pos, end, left)
    requires left == 0 || pos + 2 > end || pos + 2 + Field(buf, pos, 2) > end
    ensures whole == Walk(bodies, left != 0 && pos + 2 <= end)
  {
    assert bodies + [] == bodies;
  }

  ghost predicate Sofar(g: FramerState, before: seq<RxMsg>, walk: Walk, first: int, room: nat, rxTsc: nat,
                        state: FramerState, contents: seq<RxMsg>)
  {
    var r := Walked(g, walk, first, FirstOnes(room), rxTsc);
    state == r.state && contents == before + r.msgs
  }

  lemma {:induction false} SofarStart(g: FramerState, before: seq<RxMsg>, first: int, room: nat, rxTsc: nat)
    ensures Sofar(g, before, Walk([], false), first, room, rxTsc, g, before)
  {
    assert before + [] == before;
  }

  lemma {:induction false} SofarNext(g: FramerState, before: seq<RxMsg>, bodies: seq<seq<Byte>>, body: seq<Byte>,
                                     first: int, room: nat, rxTsc: nat, state: FramerState, contents: seq<RxMsg>)
    requires Sofar(g, before, Walk(bodies, false), first, room, rxTsc, state, contents)
    ensures var b := Blocked(state, body, first + |bodies|, rxTsc, |contents| - |before| < room);
            && |contents| - |before| <= room
            && Sofar(g, before, Walk(bodies + [body], false), first, room, rxTsc, b.state, contents + b.msgs)
  {
    WalkedLast(g, bodies, body, first, room, rxTsc);
  }

  lemma {:induction false} SofarCut(g: FramerState, before: seq<RxMsg>, bodies: seq<seq<Byte>>, first: int, room: nat,
                                    rxTsc: nat, state: FramerState, contents: seq<RxMsg>)
    requires Sofar(g, before, Walk(bodies, false), first, room, rxTsc, state, contents)
    ensures Sofar(g, before, Walk(bodies, true), first, room, rxTsc,
                  state.(st := state.st.(truncated := state.st.truncated + 1)), contents)
  {
  }

  lemma CountedSegment(f: FramerState, buf: seq<Byte>, takes: nat -> bool, rxTsc: nat)
    requires IsDeep(buf) && MessageCount(buf) != 0
    ensures Framed(f, buf, takes, rxTsc) ==
            Walked(Sequenced(f.(st := f.st.(datagrams := f.st.datagrams + 1)), FirstSeq(buf), MessageCount(buf)),
                   BodiesOf(buf), FirstSeq(buf), takes, rxTsc)
  {
  }

  // The framer itself.

  class RxFramer {
    var expectedSeq: int
    var pendingGap: bool
    var st: RxStats

    ghost function State(): FramerState
      reads this
    {
      FramerState(expectedSeq, pendingGap, st)
    }

    constructor ()
      ensures State() == FRAMER_INIT
    {
      expectedSeq, pendingGap := -1, false;
      st := RxStats(0, 0, 0, 0, 0, 0, 0, 0, 0, 0, 0);
    }

    /** Gap and reorder accounting, before any block is looked at. */
    method Account(first: int, count: nat)
      modifies this
      ensures State() == Sequenced(old(State()), first, count)
    {
      if expectedSeq >= 0 && first != expectedSeq {
        if first > expectedSeq {
          st := st.(gaps := st.gaps + 1, gapMsgs := st.gapMsgs + (first - expectedSeq));
          pendingGap := true;
        } else {
          st := st.(reorders := st.reorders + 1);
        }
      }
      expectedSeq := first + count;
    }

    /** One whole block: filter it out, drop it, or push it. `kind` is what is read as its type byte. */
    method Block(body: seq<Byte>, kind: Byte, seqNo: int, rxTsc: nat, q: CachedQueue<RxMsg>)
      requires body != [] ==> kind == body[0]
      requires q.Valid() && q.AtRest()
      modifies this`pendingGap, this`st, q, q.buf
      ensures q.Valid() && q.AtRest() && expectedSeq == old(expectedSeq)
      ensures var r := Blocked(old(State()), body, seqNo, rxTsc, 0 < old(q.Room()));
              State() == r.state && q.Contents() == old(q.Contents()) + r.msgs
    {
      st := st.(messages := st.messages + 1);
      if (kind != PLU_BUY && kind != PLU_SELL) || |body| < PLU_BYTES {
        st := st.(filtered := st.filtered + 1);
        return;
      }
      var ok, slot := q.PushBegin();
      if !ok {
        st := st.(droppedFull := st.droppedFull + 1);
        return;
      }
      q.Write(slot, RxMsg(rxTsc, seqNo, pendingGap, body[..PLU_BYTES]));
      q.PushCommit();
      pendingGap := false;
      st := st.(pushed := st.pushed + 1);
    }

    /** Block, after the bodies already walked. */
    method NextBlock(buf: seq<Byte>, beyond: Byte, p: nat, next: nat, first: int, i: nat, rxTsc: nat,
                     q: CachedQueue<RxMsg>, ghost end: nat, ghost left: nat, ghost whole: Walk, ghost g: FramerState,
                     ghost before: seq<RxMsg>, ghost bodies: seq<seq<Byte>>, ghost room: nat)
      requires 0 < left && p + 2 <= next <= end <= |buf| && next == p + 2 + Field(buf, p, 2)
      requires i == |bodies| && q.Valid() && q.AtRest() && room + |before| == q.buf.Length
      requires Ahead(whole, bodies, buf, p, end, left)
      requires Sofar(g, before, Walk(bodies, false), first, room, rxTsc, State(), q.Contents())
      modifies this`pendingGap, this`st, q, q.buf
      ensures q.Valid() && q.AtRest()
      ensures Ahead(whole, bodies + [buf[p + 2..next]], buf, next, end, left - 1)
      ensures Sofar(g, before, Walk(bodies + [buf[p + 2..next]], false), first, room, rxTsc, State(), q.Contents())
    {
      var body := buf[p + 2..next];
      var kind := if p + 2 < |buf| then buf[p + 2] else beyond;
      AheadNext(whole, bodies, buf, p, next, end, left);
      SofarNext(g, before, bodies, body, first, room, rxTsc, State(), q.Contents());
      Block(body, kind, first + i, rxTsc, q);
    }

    /** A block that ends beyond the segment. */
    method CutBlock(first: int, rxTsc: nat, ghost g: FramerState, ghost before: seq<RxMsg>,
                    ghost bodies: seq<seq<Byte>>, ghost room: nat, ghost contents: seq<RxMsg>)
      requires Sofar(g, before, Walk(bodies, false), first, room, rxTsc, State(), contents)
      modifies this`st
      ensures Sofar(g, before, Walk(bodies, true), first, room, rxTsc, State(), contents)
    {
      SofarCut(g, before, bodies, first, room, rxTsc, State(), contents);
      st := st.(truncated := st.truncated + 1);
    }

    /**
      * One segment. `beyond` is the byte after the buffer: it is looked at for an empty block at the very end, and the
      * result does not depend on it.
      */
    method Segment(buf: seq<Byte>, beyond: Byte, rxTsc: nat, q: CachedQueue<RxMsg>)
      requires q.Valid() && q.AtRest()
      modifies this, q, q.buf
      ensures q.Valid() && q.AtRest()
      ensures var r := Framed(old(State()), buf, FirstOnes(old(q.Room())), rxTsc);
              State() == r.state && q.Contents() == old(q.Contents()) + r.msgs
    {
      ghost var f := State();
      if !IsDeep(buf) {
        st := st.(nonDeep := st.nonDeep + 1);
        return;
      }
      st := st.(datagrams := st.datagrams + 1);
      var count := MessageCount(buf);
      if count == 0 {
        st := st.(heartbeats := st.heartbeats + 1);
        return;
      }
      CountedSegment(f, buf, FirstOnes(q.Room()), rxTsc);
      Messages(buf, beyond, count, rxTsc, q);
    }

    method Messages(buf: seq<Byte>, beyond: Byte, count: nat, rxTsc: nat, q: CachedQueue<RxMsg>)
      requires q.Valid() && q.AtRest() && HasHeader(buf) && count == MessageCount(buf)
      modifies this, q, q.buf
      ensures q.Valid() && q.AtRest()
      ensures var g := Sequenced(old(State()), FirstSeq(buf), count);
              Sofar(g, old(q.Contents()), BodiesOf(buf), FirstSeq(buf), old(q.Room()), rxTsc, State(), q.Contents())
    {
      var first := FirstSeq(buf);
      Account(first, count);
      AheadFirst(buf);
      WalkBlocks(buf, beyond, first, count, rxTsc, q, BodiesOf(buf));
    }

    method WalkBlocks(buf: seq<Byte>, beyond: Byte, first: int, count: nat, rxTsc: nat, q: CachedQueue<RxMsg>,
                      ghost whole: Walk)
      requires q.Valid() && q.AtRest() && HasHeader(buf) && Ahead(whole, [], buf, HEADER_BYTES, End(buf), count)
      modifies this`pendingGap, this`st, q, q.buf
      ensures q.Valid() && q.AtRest()
      ensures Sofar(old(State()), old(q.Contents()), whole, first, old(q.Room()), rxTsc, State(), q.Contents())
    {
      ghost var room, bodies: seq<seq<Byte>>, g, before := q.Room(), [], State(), q.Contents();
      var p: nat, end: nat, i: nat := HEADER_BYTES, End(buf), 0;
      SofarStart(g, before, first, room, rxTsc);
      while i < count && p + 2 <= end
        invariant q.Valid() && q.AtRest() && i <= count && i == |bodies|
        invariant Ahead(whole, bodies, buf, p, end, count - i)
        invariant Sofar(g, before, Walk(bodies, false), first, room, rxTsc, State(), q.Contents())
        decreases count - i
      {
        var next := p + 2 + Field(buf, p, 2);
        if next > end {
          AheadEnd(whole, bodies, buf, p, end, count - i);
          CutBlock(first, rxTsc, g, before, bodies, room, q.Contents());
          return;
        }
        NextBlock(buf, beyond, p, next, first, i, rxTsc, q, end, count - i, whole, g, before, bodies, room);
        bodies := bodies + [buf[p + 2..next]];
        p, i := next, i + 1;
      }
      AheadEnd(whole, bodies, buf, p, end, count - i);
    }
  }
}
