/** The comparison script: the program on a capture, the replay on its dump, and diff. */
module Verify {
  import opened Words
  import opened Wire
  import opened PriceText
  import opened Decode
  import opened Segments
  import opened SymTab
  import opened Framer
  import opened FramerRuns
  import opened Reference
  import opened Desk
  import opened SymbolText
  import opened Dump
  import opened DumpWalk
  import opened BboText
  import opened EndToEnd
  import opened Offline
  import Book
  import Horizon
  import Levels

  // The dump of a capture.

  /** One segment after the other; `pkts` are the numbers of the frames they came in. */
  function CaptureEntries(ds: seq<Datagram>, pkts: seq<nat>, host: Host): seq<Entry>
    requires |pkts| == |ds|
  {
    if ds == [] then [] else
      var n := |ds| - 1;
      CaptureEntries(ds[..n], pkts[..n], host) + SegmentEntries(ds[n].buf, pkts[n], host)
  }

  ghost predicate AllWhole(ds: seq<Datagram>) {
    forall i | 0 <= i < |ds| :: Whole(ds[i].buf)
  }

  /** The type byte of every message can be printed as a character of its own. */
  ghost predicate TypesPrint(ds: seq<Datagram>) {
    forall i | 0 <= i < |ds| :: KindsPrintIn(ds[i].buf)
  }

  /** No update in the capture is shorter than its fields. */
  ghost predicate NoShortUpdates(ds: seq<Datagram>) {
    forall i | 0 <= i < |ds| :: NoShortIn(ds[i].buf)
  }

  lemma {:induction false} UpdatesInAppend(a: seq<Entry>, b: seq<Entry>)
    ensures UpdatesIn(a + b) == UpdatesIn(a) + UpdatesIn(b)
    decreases |b|
  {
    if b == [] {
      assert a + b == a;
    } else {
      assert (a + b)[..|a + b| - 1] == a + b[..|b| - 1];
      UpdatesInAppend(a, b[..|b| - 1]);
    }
  }

  /** The dump lists the very updates that the framer finds. */
  lemma {:induction false} CaptureUpdates(ds: seq<Datagram>, pkts: seq<nat>, host: Host)
    requires |pkts| == |ds|
    ensures UpdatesIn(CaptureEntries(ds, pkts, host)) == AllUpdates(Arrivals(ds))
    decreases |ds|
  {
    if ds != [] {
      var n := |ds| - 1;
      var before := CaptureEntries(ds[..n], pkts[..n], host);
      CaptureUpdates(ds[..n], pkts[..n], host);
      UpdatesInAppend(before, SegmentEntries(ds[n].buf, pkts[n], host));
      SegmentUpdates(ds[n].buf, pkts[n], host);
      UpdatesNext(ds, n);
      assert ds[..n + 1] == ds;
    }
  }

  lemma {:induction false} CaptureShort(ds: seq<Datagram>, pkts: seq<nat>, host: Host)
    requires |pkts| == |ds|
    ensures NoneShort(CaptureEntries(ds, pkts, host)) <==> NoShortUpdates(ds)
    decreases |ds|
  {
    if ds != [] {
      var n := |ds| - 1;
      CaptureShort(ds[..n], pkts[..n], host);
      NoneShortAppend(CaptureEntries(ds[..n], pkts[..n], host), SegmentEntries(ds[n].buf, pkts[n], host));
      SegmentShort(ds[n].buf, pkts[n], host);
      NoShortLast(ds);
    }
  }

  lemma NoShortLast(ds: seq<Datagram>)
    requires ds != []
    ensures var n := |ds| - 1; NoShortUpdates(ds) <==> NoShortUpdates(ds[..n]) && NoShortIn(ds[n].buf)
  {
    var n := |ds| - 1;
    if NoShortUpdates(ds[..n]) && NoShortIn(ds[n].buf) {
      forall i | 0 <= i < |ds| ensures NoShortIn(ds[i].buf) {
        assert i < n ==> ds[..n][i] == ds[i];
      }
    }
  }

  lemma NoneShortAppend(a: seq<Entry>, b: seq<Entry>)
    ensures NoneShort(a + b) <==> NoneShort(a) && NoneShort(b)
  {
    if NoneShort(a + b) {
      assert forall i | 0 <= i < |a| :: (a + b)[i] == a[i];
      assert forall i | 0 <= i < |b| :: (a + b)[|a| + i] == b[i];
    }
  }

  /** What is comparable can be shown in the dump. */
  lemma {:induction false} BodyShows(bodies: seq<seq<Byte>>, first: int, i: nat, found: seq<Found>, o: Options)
    requires i < |bodies| && (IsUpdateType(bodies[i]) || IsKind(KindOf(bodies[i])))
    requires Comparable(found, o) && forall f | f in Updates(bodies, first) :: f in found
    ensures Shows(bodies[i])
  {
    if IsPlu(bodies[i]) {
      UpdateAt(bodies, first, i);
      var f := Found(first + i, bodies[i][..PLU_BYTES]);
      assert f in Updates(bodies, first);
      var k :| 0 <= k < |found| && found[k] == f;
      assert KeyOf(f.plu) == Keys(found)[k];
    }
  }

  lemma {:induction false} CaptureShows(ds: seq<Datagram>, n: nat, o: Options)
    requires n < |ds| && TypesPrint(ds) && Comparable(AllUpdates(Arrivals(ds)), o) && IsDeep(ds[n].buf)
    ensures AllShow(BodiesOf(ds[n].buf).bodies)
  {
    PartOfAll(ds, n, |ds|);
    assert ds[..|ds|] == ds;
    var bodies, first := BodiesOf(ds[n].buf).bodies, FirstSeq(ds[n].buf);
    assert KindsPrintIn(ds[n].buf);
    forall i | 0 <= i < |bodies| ensures Shows(bodies[i]) {
      BodyShows(bodies, first, i, AllUpdates(Arrivals(ds)), o);
    }
  }

  lemma {:induction false} CaptureNext(ds: seq<Datagram>, pkts: seq<nat>, host: Host, n: nat, lines: seq<string>,
                                       more: seq<string>)
    requires n < |pkts| == |ds|
    requires Printed(CaptureEntries(ds[..n], pkts[..n], host), lines)
    requires Printed(SegmentEntries(ds[n].buf, pkts[n], host), more)
    ensures Printed(CaptureEntries(ds[..n + 1], pkts[..n + 1], host), lines + more)
  {
    assert ds[..n + 1][..n] == ds[..n] && pkts[..n + 1][..n] == pkts[..n];
    PrintedAppend(CaptureEntries(ds[..n], pkts[..n], host), lines, SegmentEntries(ds[n].buf, pkts[n], host), more);
  }

  /** deep_dump on these datagrams, the header line aside. */
  method DumpCapture(ds: seq<Datagram>, pkts: seq<nat>, host: Host, ghost o: Options) returns (lines: seq<string>)
    requires |pkts| == |ds| && HostWords(host)
    requires AllWhole(ds) && TypesPrint(ds) && Comparable(AllUpdates(Arrivals(ds)), o)
    ensures Printed(CaptureEntries(ds, pkts, host), lines)
  {
    lines := [];
    for i := 0 to |ds|
      invariant Printed(CaptureEntries(ds[..i], pkts[..i], host), lines)
    {
      if IsDeep(ds[i].buf) {
        CaptureShows(ds, i, o);
      }
      var more := DumpSegment(ds[i].buf, pkts[i], host);
      CaptureNext(ds, pkts, host, i, lines, more);
      lines := lines + more;
    }
    assert ds[..|ds|] == ds && pkts[..|pkts|] == pkts;
  }

  // The rows of the program can be told apart by their text.

  ghost predicate CellDesk(d: Desk) {
    AllCells(d.lines) && forall i | 0 <= i < |d.names| :: IsCell(Text(d.names[i]))
  }

  lemma BboCells(seqNo: int, sym: string, b: Book.Bbo)
    requires IsCell(sym)
    ensures AreCells(BboLine(seqNo, sym, b))
  {
    IntIsCell(seqNo);
    SameText(b.bidPx);
    SameText(b.askPx);
    PriceIsCell(b.bidPx);
    PriceIsCell(b.askPx);
  }

  lemma {:induction false} EmittedCell(d: Desk, seqNo: int, sym: nat, o: Options)
    requires Sized(d) && sym < MAX_SYMBOLS && CellDesk(d)
    ensures CellDesk(Emitted(d, seqNo, sym, o))
  {
    BboCells(seqNo, SymName(d.names, sym), BboOfSym(d.book, sym));
  }

  lemma {:induction false} InternedCell(d: Desk, key: Word)
    requires CellDesk(d) && IsCell(Text(key))
    ensures CellDesk(d.(names := Interned(d.names, key)))
  {
  }

  lemma {:induction false} ConsumedCell(d: Desk, m: RxMsg, o: Options)
    requires Sized(d) && CellDesk(d) && IsCell(Text(KeyOf(m.plu)))
    ensures CellDesk(ConsumeOne(d, m, o))
  {
    var key := KeyOf(m.plu);
    InternedCell(d, key);
    var idx := Answer(d.names, key);
    if idx != INVALID && Epc(m.plu) {
      var u := Decoded(m, idx);
      var e := d.(names := Interned(d.names, key), dec := d.dec.(decoded := d.dec.decoded + 1),
                  book := Book.Applied(d.book, u.change));
      EmittedCell(e, u.seqNo, u.change.sym, o);
    }
  }

  lemma {:induction false} ProgramCells(msgs: seq<RxMsg>, o: Options)
    requires forall i | 0 <= i < |msgs| :: IsCell(Text(KeyOf(msgs[i].plu)))
    ensures CellDesk(ConsumeAll(START, msgs, o))
  {
    if msgs != [] {
      var n := |msgs| - 1;
      ProgramCells(msgs[..n], o);
      ConsumedCell(ConsumeAll(START, msgs[..n], o), msgs[n], o);
    }
  }

  lemma {:induction false} ComparableCells(found: seq<Found>, o: Options, i: nat)
    requires Comparable(found, o) && i < |found|
    ensures IsCell(Text(KeyOf(found[i].plu)))
  {
    assert Keys(found)[i] == KeyOf(found[i].plu);
    PrintableIsWord(KeyOf(found[i].plu));
    WordIsCell(Text(KeyOf(found[i].plu)));
  }

  lemma {:induction false} BothCells(msgs: seq<RxMsg>, found: seq<Found>, o: Options)
    requires Payloads(msgs) == found && Comparable(found, o)
    ensures AllCells(ConsumeAll(START, msgs, o).lines) && AllCells(ReplayAll(Rows(found)).out)
  {
    forall i | 0 <= i < |found|
      ensures IsCell(Text(KeyOf(msgs[i].plu))) && IsCell(Rows(found)[i].seqNo) && IsCell(Rows(found)[i].sym)
    {
      assert found[i] == Payload(msgs[i]);
      ComparableCells(found, o, i);
      IntIsCell(found[i].seqNo);
    }
    ProgramCells(msgs, o);
    ReplayCells(Rows(found));
  }

  lemma {:induction false} AllSelected(rows: seq<BboRow>, o: Options)
    requires o.emit && o.filter == 0
    ensures Selected(rows, o) == rows
  {
    if rows != [] {
      AllSelected(rows[..|rows| - 1], o);
      assert rows == rows[..|rows| - 1] + [rows[|rows| - 1]];
    }
  }

  /**
    * The script. On every capture that can be compared and dumped, and on which no segment overran the queue, the two
    * files are equal byte for byte iff every row due shows two right sides and no update is short.
    */
  method VerifyBbo(hash: Word -> nat, ds: seq<Datagram>, header: string, pkts: seq<nat>, host: Host)
    returns (same: bool)
    requires forall k: Word :: hash(k) < SLOTS
    requires |pkts| == |ds| && HostWords(host) && AllWhole(ds) && TypesPrint(ds)
    requires Comparable(AllUpdates(Arrivals(ds)), Options(true, 0))
    ensures var found, o := AllUpdates(Arrivals(ds)), Options(true, 0);
            AllFit(Arrivals(ds)) ==>
              && (same <==> RightRows(found, o) && NoShortUpdates(ds))
              && (WithinHorizon(found, o) && NoShortUpdates(ds) ==> same)
  {
    var o := Options(true, 0);
    var impl, _, _ := MatchesReplay(hash, o, ds);
    var lines := DumpCapture(ds, pkts, host, o);
    var out, _, ok := ReplayDump([header] + lines);
    assert ([header] + lines)[1..] == lines;
    DumpReads(CaptureEntries(ds, pkts, host));
    CaptureUpdates(ds, pkts, host);
    CaptureShort(ds, pkts, host);
    if ok && AllFit(Arrivals(ds)) {
      DiffRows(ds, impl, out, o);
    }
    same := ok && FileText(impl) == FileText(out);
    if WithinHorizon(AllUpdates(Arrivals(ds)), o) {
      HorizonIsRight(AllUpdates(Arrivals(ds)), o);
    }
  }

  lemma {:induction false} DiffRows(ds: seq<Datagram>, impl: seq<BboRow>, out: seq<BboRow>, o: Options)
    requires o.emit && o.filter == 0 && Comparable(AllUpdates(Arrivals(ds)), o) && AllFit(Arrivals(ds))
    requires impl == ConsumeAll(START, After(FRAMER_INIT, Arrivals(ds)).msgs, o).lines
    requires out == ReplayAll(Rows(AllUpdates(Arrivals(ds)))).out
    ensures FileText(impl) == FileText(out) <==> impl == Selected(out, o)
  {
    EmptyArrivals(ds);
    DropsOnRun(Arrivals(ds));
    BothCells(After(FRAMER_INIT, Arrivals(ds)).msgs, AllUpdates(Arrivals(ds)), o);
    FilesTellApart(impl, out);
    AllSelected(out, o);
  }

  // A capture for any updates, and one on which the comparison fails.

  /** A sequence number that a header can carry. */
  predicate HasNumber(f: Found) {
    -0x8000_0000_0000_0000 <= f.seqNo < 0x8000_0000_0000_0000
  }

  function SegmentOf(e: Envelope, f: Found): seq<Byte>
    requires e.Valid() && HasNumber(f)
  {
    Segment(e, [f.plu], f.seqNo)
  }

  /** One segment for each update. */
  function CaptureOf(e: Envelope, found: seq<Found>): seq<Datagram>
    requires e.Valid() && forall i | 0 <= i < |found| :: HasNumber(found[i])
  {
    seq(|found|, i requires 0 <= i < |found| && HasNumber(found[i]) => Datagram(SegmentOf(e, found[i]), 0, 0))
  }

  lemma {:induction false} OneUpdate(e: Envelope, f: Found)
    requires e.Valid() && HasNumber(f) && IsPlu(f.plu)
    ensures var buf := SegmentOf(e, f);
            UpdatesOf(buf) == [f] && Whole(buf) && KindsPrintIn(buf) && NoShortIn(buf)
  {
    SerialOne(f.plu);
    FramingRoundTrip(e, [f.plu], f.seqNo);
    SegmentFields(e, [f.plu], f.seqNo);
    assert [f.plu][..0] == [] && f.plu[..PLU_BYTES] == f.plu;
  }

  lemma SerialOne(plu: Plu)
    ensures Serial([plu]) == ToBytes(PLU_BYTES, 2) + plu && Fits([plu])
  {
    assert [plu][1..] == [];
    assert Serial([]) == [];
    assert ToBytes(PLU_BYTES, 2) + plu + [] == ToBytes(PLU_BYTES, 2) + plu;
  }

  /** Every list of updates is that of a capture, and of one that meets every condition on captures. */
  lemma {:induction false} Captured(e: Envelope, found: seq<Found>)
    requires e.Valid() && forall i | 0 <= i < |found| :: HasNumber(found[i]) && IsPlu(found[i].plu)
    ensures var ds := CaptureOf(e, found);
            AllUpdates(Arrivals(ds)) == found && AllFit(Arrivals(ds))
    ensures var ds := CaptureOf(e, found);
            AllWhole(ds) && TypesPrint(ds) && NoShortUpdates(ds)
  {
    var ds := CaptureOf(e, found);
    forall i | 0 <= i < |ds|
      ensures UpdatesOf(ds[i].buf) == [found[i]] && Whole(ds[i].buf) && KindsPrintIn(ds[i].buf) && NoShortIn(ds[i].buf)
    {
      OneUpdate(e, found[i]);
    }
    CapturedUpdates(e, found);
  }

  lemma {:induction false} CapturedUpdates(e: Envelope, found: seq<Found>)
    requires e.Valid() && forall i | 0 <= i < |found| :: HasNumber(found[i]) && IsPlu(found[i].plu)
    ensures AllUpdates(Arrivals(CaptureOf(e, found))) == found
  {
    if found != [] {
      var init, f := found[..|found| - 1], found[|found| - 1];
      assert found == init + [f];
      CapturedUpdates(e, init);
      CaptureLast(e, init, f);
    }
  }

  lemma {:induction false} CaptureLast(e: Envelope, found: seq<Found>, f: Found)
    requires e.Valid() && (forall i | 0 <= i < |found| :: HasNumber(found[i])) && HasNumber(f) && IsPlu(f.plu)
    ensures forall i | 0 <= i < |found + [f]| :: HasNumber((found + [f])[i])
    ensures AllUpdates(Arrivals(CaptureOf(e, found + [f]))) == AllUpdates(Arrivals(CaptureOf(e, found))) + [f]
  {
    var g := Datagram(SegmentOf(e, f), 0, 0);
    assert CaptureOf(e, found + [f]) == CaptureOf(e, found) + [g];
    OneUpdate(e, f);
    CaptureUpdatesLast(CaptureOf(e, found), g);
  }

  /** 65 levels and 64 deletes, each in a segment of its own: the script reports a mismatch. */
  method DrainDiffers(hash: Word -> nat, side: Levels.Side, key: Word, e: Envelope, header: string, pkts: seq<nat>,
                      host: Host)
    returns (same: bool)
    requires forall k: Word :: hash(k) < SLOTS
    requires Padded(key) && e.Valid() && HostWords(host) && |pkts| == |DrainUpdates(side, key)|
    ensures !same
  {
    var found := DrainUpdates(side, key);
    DrainNumbers(side, key);
    BeyondHorizon(side, key);
    Captured(e, found);
    same := VerifyBbo(hash, CaptureOf(e, found), header, pkts, host);
  }

  lemma {:induction false} DrainNumbers(side: Levels.Side, key: Word)
    ensures forall i | 0 <= i < |DrainUpdates(side, key)| :: HasNumber(DrainUpdates(side, key)[i])
  {
    Horizon.DrainLength(side, Levels.BOOK_MAX_LEVELS);
  }
}
