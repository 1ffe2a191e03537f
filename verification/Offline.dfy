/** The offline program: every datagram is framed into the queue, and the queue is drained before the next one. */
module Offline {
  import opened Words
  import opened Wire
  import opened Levels
  import opened DumpText
  import opened PriceText
  import opened Decode
  import opened SymTab
  import opened Framer
  import opened FramerRuns
  import opened SpscQueue
  import opened Reference
  import opened Desk
  import opened Dump
  import opened EndToEnd
  import opened Wrappers
  import Book
  import Live

  /** A UDP payload, the byte that happens to follow it, and when it was read. */
  datatype Datagram = Datagram(buf: seq<Byte>, beyond: Byte, rxTsc: nat)

  /** No update has the one price whose sign cannot be flipped. */
  ghost predicate AllSaneUpdates(found: seq<Found>) {
    forall f | f in found :: Sane(f.plu)
  }

  /** What decoding alone makes of the desk. */
  ghost predicate Decodes(d: Desk, m: RxMsg, d': Desk, u: Option<DeepUpdate>) {
    var idx := Answer(d.names, KeyOf(m.plu));
    && d' == d.(names := Interned(d.names, KeyOf(m.plu)),
                dec := if idx == INVALID then d.dec.(symDropped := d.dec.symDropped + 1)
                       else d.dec.(decoded := d.dec.decoded + 1))
    && u == if idx == INVALID then None else Some(Decoded(m, idx))
  }

  class Program {
    const queue: CachedQueue<RxMsg>
    const symtab: Table
    const books: Book.BookSet
    const framer: RxFramer
    const o: Options
    var lines: seq<BboRow>
    var dec: DecodeStats
    var epc: nat

    ghost predicate NoneOf(a: object) {
      a != symtab.keys && a != symtab.idxs && a != symtab.name
    }

    ghost predicate Apart() {
      && NoneOf(books.n) && NoneOf(books.level) && NoneOf(queue.buf)
      && queue.buf as object != books.n && queue.buf as object != books.level
    }

    ghost predicate DeskValid()
      reads symtab, symtab.keys, symtab.idxs, symtab.name, books, books.n, books.level
    {
      Apart() && symtab.Valid() && books.Valid()
    }

    ghost predicate Valid()
      reads this, queue, queue.buf, symtab, symtab.keys, symtab.idxs, symtab.name, books, books.n, books.level
    {
      DeskValid() && queue.Valid() && queue.AtRest() && queue.buf.Length == RX_QUEUE_CAPACITY
    }

    /** What the program has made of the messages taken from the queue. */
    ghost function Abs(): Desk
      reads this, symtab, symtab.name, books
      requires symtab.count <= symtab.name.Length
    {
      Desk(symtab.Names(), books.Snapshot(), lines, dec, epc)
    }

    constructor (hash: Word -> nat, o: Options)
      requires forall k: Word :: hash(k) < SLOTS
      ensures Valid() && Abs() == START && queue.Contents() == [] && framer.State() == FRAMER_INIT && this.o == o
      ensures fresh(queue) && fresh(queue.buf) && fresh(framer)
      ensures fresh(symtab) && fresh(symtab.keys) && fresh(symtab.idxs) && fresh(symtab.name)
      ensures fresh(books) && fresh(books.n) && fresh(books.level)
    {
      Live.QueueCapacity();
      books := new Book.BookSet();
      symtab := new Table(hash);
      queue := new CachedQueue<RxMsg>(RX_QUEUE_CAPACITY);
      framer := new RxFramer();
      this.o := o;
      lines, dec, epc := [], DecodeStats(0, 0), 0;
    }

    /** ll_symtab_name. */
    method Name(idx: nat) returns (out: string)
      requires symtab.Valid()
      ensures out == SymName(symtab.Names(), idx)
    {
      if idx >= symtab.count {
        return "?";
      }
      var s := ToBytes(symtab.name[idx], SYMBOL_BYTES);
      var len: nat := SYMBOL_BYTES;
      assert s[..len] == s;
      while len > 0 && (s[len - 1] == 32 || s[len - 1] == 0)
        invariant len <= SYMBOL_BYTES && Trim(s[..len]) == Trim(s)
      {
        assert s[..len][..len - 1] == s[..len - 1];
        len := len - 1;
      }
      out := Chars(CString(s[..len]));
    }

    /** deep_decode; None where the source returns 0. */
    method DeepDecode(m: RxMsg) returns (u: Option<DeepUpdate>)
      requires DeskValid()
      modifies this`dec, symtab, symtab.keys, symtab.idxs, symtab.name
      ensures DeskValid()
      ensures Decodes(old(Abs()), m, Abs(), u)
    {
      var sym := symtab.Intern(KeyOf(m.plu));
      if sym == INVALID {
        dec := dec.(symDropped := dec.symDropped + 1);
        return None;
      }
      dec := dec.(decoded := dec.decoded + 1);
      return Some(Decoded(m, sym));
    }

    /** The row that is printed. */
    method RowFor(seqNo: int, sym: nat) returns (row: BboRow)
      requires DeskValid() && sym < MAX_SYMBOLS
      ensures row == BboLine(seqNo, SymName(symtab.Names(), sym), BboOfSym(books.Snapshot(), sym))
    {
      var bbo := books.BestBidOffer(sym);
      var name := Name(sym);
      var bp, ap := FmtPxC(bbo.bidPx), FmtPxC(bbo.askPx);
      row := BboRow(IntText(seqNo), name, if bbo.hasBid then bp else "-", bbo.bidSz, if bbo.hasAsk then ap else "-",
                    bbo.askSz);
    }

    /** The part of on_update for a complete event. */
    method Emit(seqNo: int, sym: nat)
      requires DeskValid() && sym < MAX_SYMBOLS
      modifies this`lines, this`epc
      ensures epc == old(epc) + 1
      ensures lines == old(lines) +
                       if Prints(o, NameAt(symtab.Names(), sym))
                       then [BboLine(seqNo, SymName(symtab.Names(), sym), BboOfSym(books.Snapshot(), sym))] else []
    {
      epc := epc + 1;
      if !o.emit || (o.filter != 0 && symtab.name[sym] != o.filter) {
        return;
      }
      var row := RowFor(seqNo, sym);
      lines := lines + [row];
    }

    /** on_update. */
    method OnUpdate(u: DeepUpdate)
      requires DeskValid() && u.change.sym < MAX_SYMBOLS && HasKey(u.change.side, u.change.price)
      modifies this`lines, this`epc, books, books.n, books.level
      ensures DeskValid()
      ensures Abs() == AfterUpdate(old(Abs()), u, o)
    {
      books.Apply(u.change);
      if u.epc {
        Emit(u.seqNo, u.change.sym);
      }
    }

    /** The oldest message, decoded while its slot is still borrowed. */
    method Fetch() returns (more: bool, u: Option<DeepUpdate>)
      requires Valid() && AllSane(queue.Contents())
      modifies this`dec, queue, symtab, symtab.keys, symtab.idxs, symtab.name
      ensures Valid() && more == (old(queue.Contents()) != [])
      ensures more ==> queue.Contents() == old(queue.Contents())[1..]
      ensures more ==> Decodes(old(Abs()), old(queue.Contents())[0], Abs(), u)
      ensures !more ==> queue.Contents() == [] && Abs() == old(Abs())
    {
      var slot: nat;
      more, slot := queue.PopBegin();
      u := None;
      if more {
        assert Sane(queue.Contents()[0].plu);
        u := DeepDecode(queue.buf[slot]);
        queue.PopEnd();
      }
    }

    /** One turn of the drain loop. */
    method Next() returns (more: bool)
      requires Valid() && AllSane(queue.Contents())
      modifies this`lines, this`epc, this`dec, queue, symtab, symtab.keys, symtab.idxs, symtab.name, books, books.n,
               books.level
      ensures Valid() && more == (old(queue.Contents()) != [])
      ensures more ==> queue.Contents() == old(queue.Contents())[1..]
      ensures more ==> Abs() == ConsumeOne(old(Abs()), old(queue.Contents())[0], o)
      ensures !more ==> queue.Contents() == [] && Abs() == old(Abs())
    {
      var u;
      more, u := Fetch();
      if more && u.Some? {
        OnUpdate(u.value);
      }
    }

    /** Takes every message off the queue, oldest first. */
    method Drain()
      requires Valid() && AllSane(queue.Contents())
      modifies this`lines, this`epc, this`dec, queue, symtab, symtab.keys, symtab.idxs, symtab.name, books, books.n,
               books.level
      ensures Valid() && queue.Contents() == []
      ensures Abs() == ConsumeAll(old(Abs()), old(queue.Contents()), o)
    {
      ghost var d, all, done: nat := Abs(), queue.Contents(), 0;
      assert all[0..] == all && AllSane(all);
      while true
        invariant Valid() && done <= |all| && queue.Contents() == all[done..]
        invariant Abs() == ConsumeAll(d, all[..done], o)
        decreases |queue.Contents()|
      {
        var more := Next();
        if !more {
          assert all[..done] == all;
          return;
        }
        ConsumeNext(d, all, done, o);
        done := done + 1;
      }
    }

    /** Frames one UDP payload into the empty queue. */
    method Frame(g: Datagram)
      requires Valid() && queue.Contents() == [] && AllSaneUpdates(UpdatesOf(g.buf))
      modifies queue, queue.buf, framer
      ensures Valid() && AllSane(queue.Contents()) && Abs() == old(Abs())
      ensures Framing(framer.State(), queue.Contents()) ==
              Framed(old(framer.State()), g.buf, FirstOnes(RX_QUEUE_CAPACITY), g.rxTsc)
    {
      FramedSane(framer.State(), g.buf, FirstOnes(RX_QUEUE_CAPACITY), g.rxTsc);
      assert queue.Room() == RX_QUEUE_CAPACITY;
      framer.Segment(g.buf, g.beyond, g.rxTsc, queue);
    }

    /** What is done with one UDP payload: frame it, then drain the queue. */
    method FrameAndDrain(g: Datagram)
      requires Valid() && queue.Contents() == [] && AllSaneUpdates(UpdatesOf(g.buf))
      modifies this`lines, this`epc, this`dec, queue, queue.buf, symtab, symtab.keys, symtab.idxs, symtab.name,
               books, books.n, books.level, framer
      ensures Valid() && queue.Contents() == []
      ensures var r := Framed(old(framer.State()), g.buf, FirstOnes(RX_QUEUE_CAPACITY), g.rxTsc);
              framer.State() == r.state && Abs() == ConsumeAll(old(Abs()), r.msgs, o)
    {
      Frame(g);
      Drain();
    }

    /** One datagram of a capture more. */
    method Take(ds: seq<Datagram>, i: nat)
      requires Valid() && queue.Contents() == []
      requires i < |ds| && AllSaneUpdates(UpdatesOf(ds[i].buf)) && Ran(ds[..i], framer.State(), Abs(), o)
      modifies this`lines, this`epc, this`dec, queue, queue.buf, symtab, symtab.keys, symtab.idxs, symtab.name,
               books, books.n, books.level, framer
      ensures Valid() && queue.Contents() == []
      ensures Ran(ds[..i + 1], framer.State(), Abs(), o)
    {
      ghost var f, d := framer.State(), Abs();
      FrameAndDrain(ds[i]);
      RanNext(ds, i, f, d, o);
    }
  }

  lemma {:induction false} FramedSane(f: FramerState, buf: seq<Byte>, takes: nat -> bool, rxTsc: nat)
    requires AllSaneUpdates(UpdatesOf(buf))
    ensures AllSane(Framed(f, buf, takes, rxTsc).msgs)
  {
    if Counts(buf) {
      var g := Sequenced(f.(st := f.st.(datagrams := f.st.datagrams + 1)), FirstSeq(buf), MessageCount(buf));
      var msgs := Deliver(UpdatesOf(buf), takes, g.pendingGap, rxTsc).msgs;
      DeliverOnly(UpdatesOf(buf), takes, g.pendingGap, rxTsc);
      forall i | 0 <= i < |msgs| ensures Sane(msgs[i].plu) {
        assert msgs[i] in msgs;
        assert Payload(msgs[i]) in UpdatesOf(buf);
      }
    }
  }

  /** The framer's view of the run: an empty queue for every datagram. */
  function Arrivals(ds: seq<Datagram>): seq<Arrival> {
    seq(|ds|, i requires 0 <= i < |ds| => ArrivalOf(ds[i]))
  }

  function ArrivalOf(g: Datagram): Arrival {
    Arrival(g.buf, FirstOnes(RX_QUEUE_CAPACITY), g.rxTsc)
  }

  lemma ArrivalsLast(ds: seq<Datagram>, g: Datagram)
    ensures Arrivals(ds + [g]) == Arrivals(ds) + [ArrivalOf(g)]
  {
  }

  lemma {:induction false} CaptureUpdatesLast(ds: seq<Datagram>, g: Datagram)
    ensures AllUpdates(Arrivals(ds + [g])) == AllUpdates(Arrivals(ds)) + UpdatesOf(g.buf)
  {
    ArrivalsLast(ds, g);
    AllUpdatesLast(Arrivals(ds), ArrivalOf(g));
  }

  lemma {:induction false} UpdatesNext(ds: seq<Datagram>, n: nat)
    requires n < |ds|
    ensures AllUpdates(Arrivals(ds[..n + 1])) == AllUpdates(Arrivals(ds[..n])) + UpdatesOf(ds[n].buf)
  {
    assert ds[..n + 1] == ds[..n] + [ds[n]];
    CaptureUpdatesLast(ds[..n], ds[n]);
  }

  /** The updates of one datagram are among those of the run. */
  lemma {:induction false} PartOfAll(ds: seq<Datagram>, i: nat, n: nat)
    requires i < n <= |ds|
    ensures forall f | f in UpdatesOf(ds[i].buf) :: f in AllUpdates(Arrivals(ds[..n]))
    decreases n
  {
    UpdatesNext(ds, n - 1);
    if i < n - 1 {
      PartOfAll(ds, i, n - 1);
    }
  }

  /** The framer and the desk after these datagrams. */
  ghost predicate Ran(ds: seq<Datagram>, f: FramerState, d: Desk, o: Options) {
    var r := After(FRAMER_INIT, Arrivals(ds));
    f == r.state && d == ConsumeAll(START, r.msgs, o)
  }

  lemma {:induction false} RanNext(ds: seq<Datagram>, i: nat, f: FramerState, d: Desk, o: Options)
    requires i < |ds| && Ran(ds[..i], f, d, o) && Sized(d)
    ensures var s := Framed(f, ds[i].buf, FirstOnes(RX_QUEUE_CAPACITY), ds[i].rxTsc);
            Ran(ds[..i + 1], s.state, ConsumeAll(d, s.msgs, o), o)
  {
    assert ds[..i + 1] == ds[..i] + [ds[i]];
    ArrivalsLast(ds[..i], ds[i]);
    AfterLast(FRAMER_INIT, Arrivals(ds[..i]), ArrivalOf(ds[i]));
    ConsumeMore(START, After(FRAMER_INIT, Arrivals(ds[..i])).msgs,
                Framed(f, ds[i].buf, FirstOnes(RX_QUEUE_CAPACITY), ds[i].rxTsc).msgs, o);
  }

  lemma SanePart(ds: seq<Datagram>, i: nat)
    requires i < |ds| && AllSaneUpdates(AllUpdates(Arrivals(ds)))
    ensures AllSaneUpdates(UpdatesOf(ds[i].buf))
  {
    PartOfAll(ds, i, |ds|);
    assert ds[..|ds|] == ds;
  }

  /** The offline program over a whole capture; `desk` is all that it has made of the messages. */
  method RunCapture(hash: Word -> nat, o: Options, ds: seq<Datagram>)
    returns (lines: seq<BboRow>, dec: DecodeStats, rx: RxStats, ghost desk: Desk)
    requires forall k: Word :: hash(k) < SLOTS
    requires AllSaneUpdates(AllUpdates(Arrivals(ds)))
    ensures var r := After(FRAMER_INIT, Arrivals(ds));
            && rx == r.state.st
            && lines == ConsumeAll(START, r.msgs, o).lines && dec == ConsumeAll(START, r.msgs, o).dec
    ensures desk == ConsumeAll(START, After(FRAMER_INIT, Arrivals(ds)).msgs, o)
  {
    var p := new Program(hash, o);
    for i := 0 to |ds|
      invariant fresh(p) && fresh(p.queue) && fresh(p.queue.buf) && fresh(p.framer) && p.o == o
      invariant fresh(p.symtab) && fresh(p.symtab.keys) && fresh(p.symtab.idxs) && fresh(p.symtab.name)
      invariant fresh(p.books) && fresh(p.books.n) && fresh(p.books.level)
      invariant p.Valid() && p.queue.Contents() == []
      invariant Ran(ds[..i], p.framer.State(), p.Abs(), o)
    {
      SanePart(ds, i);
      p.Take(ds, i);
    }
    assert ds[..|ds|] == ds;
    lines, dec, rx := p.lines, p.dec, p.framer.st;
    desk := p.Abs();
  }

  lemma ComparableIsSane(found: seq<Found>, o: Options)
    requires AllPlus(found)
    ensures AllSaneUpdates(found)
  {
    forall f | f in found ensures Sane(f.plu) {
      var i :| 0 <= i < |found| && found[i] == f;
    }
  }

  lemma EmptyArrivals(ds: seq<Datagram>)
    ensures EmptyQueues(Arrivals(ds))
  {
  }

  /**
    * End to end, for every capture whose updates can be compared: dropped_full counts the updates beyond 1024 of each
    * segment and is 0 iff no segment has more. If it is 0, no message is dropped for want of an index, and the rows
    * printed are those of the replay of the very same updates iff every row due shows two right sides, which they do as
    * long as the books stay within the horizon.
    */
  method MatchesReplay(hash: Word -> nat, o: Options, ds: seq<Datagram>)
    returns (lines: seq<BboRow>, dec: DecodeStats, rx: RxStats)
    requires forall k: Word :: hash(k) < SLOTS
    requires Comparable(AllUpdates(Arrivals(ds)), o)
    ensures rx.droppedFull == Excesses(Arrivals(ds)) && (rx.droppedFull == 0 <==> AllFit(Arrivals(ds)))
    ensures lines == ConsumeAll(START, After(FRAMER_INIT, Arrivals(ds)).msgs, o).lines
    ensures var found := AllUpdates(Arrivals(ds));
            rx.droppedFull == 0 ==>
              && dec == DecodeStats(|found|, 0)
              && (lines == Selected(ReplayAll(Rows(found)).out, o) <==> RightRows(found, o))
              && (WithinHorizon(found, o) ==> lines == Selected(ReplayAll(Rows(found)).out, o))
  {
    var run := Arrivals(ds);
    ghost var found := AllUpdates(run);
    ghost var desk: Desk;
    ComparableIsSane(found, o);
    lines, dec, rx, desk := RunCapture(hash, o, ds);
    EmptyArrivals(ds);
    DropsOnRun(run);
    if rx.droppedFull == 0 {
      PrintsTheReplay(After(FRAMER_INIT, run).msgs, found, o);
      if WithinHorizon(found, o) {
        HorizonIsRight(found, o);
      }
    }
  }
}
