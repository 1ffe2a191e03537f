/** The dump's own walk over a segment: one line for every whole message, whatever its type. */
module DumpWalk {
  import opened Words
  import opened Wire
  import opened Decode
  import opened DumpText
  import opened Dump
  import opened Framer
  import opened PriceText
  import opened SymbolText

  /** What comes from outside: the calendar, and the columns after the type byte of messages that are no updates. */
  datatype Host = Host(date: int -> string, time: int -> string, rest: seq<Byte> -> string)

  ghost predicate HostWords(host: Host) {
    && (forall ns :: IsWord(host.date(ns)) && IsWord(host.time(ns)))
    && forall body :: NoBreak(host.rest(body))
  }

  predicate IsUpdateType(body: seq<Byte>) {
    body != [] && (body[0] == PLU_BUY || body[0] == PLU_SELL)
  }

  /** An empty message counts as type 0, and type 0 shows as `?`. */
  function KindOf(body: seq<Byte>): char {
    if body == [] || body[0] == 0 then '?' else body[0] as char
  }

  function StampOf(body: seq<Byte>, host: Host): Stamp {
    if |body| < 10 then Unstamped else
      var ns := Signed(Field(body, 2, 8), WORD);
      Stamped(ns, host.date(ns), host.time(ns))
  }

  /** What dump_msg makes of a message. */
  function EntryOf(seqNo: int, pkt: nat, midx: nat, body: seq<Byte>, host: Host): Entry {
    if IsPlu(body) then
      var f := Found(seqNo, body[..PLU_BYTES]);
      Update(f, Aside(pkt, midx, host.date(TimestampOf(f.plu)), host.time(TimestampOf(f.plu))))
    else if IsUpdateType(body) then
      TooShort(Short(seqNo, pkt, midx, body[0] == PLU_BUY, if |body| >= 2 then body[1] else 0, StampOf(body, host)))
    else
      Other(seqNo, pkt, midx, KindOf(body), host.rest(body))
  }

  function Entries(bodies: seq<seq<Byte>>, first: int, pkt: nat, host: Host): seq<Entry> {
    seq(|bodies|, i requires 0 <= i < |bodies| => EntryOf(first + i, pkt, i, bodies[i], host))
  }

  function SegmentEntries(buf: seq<Byte>, pkt: nat, host: Host): seq<Entry> {
    if IsDeep(buf) then Entries(BodiesOf(buf).bodies, FirstSeq(buf), pkt, host) else []
  }

  /** The type byte of every message can be printed as a character of its own. */
  predicate KindsPrint(bodies: seq<seq<Byte>>) {
    forall i | 0 <= i < |bodies| :: IsUpdateType(bodies[i]) || IsKind(KindOf(bodies[i]))
  }

  /** So it can for this one, and if it is a whole update, that can be compared. */
  predicate Shows(body: seq<Byte>) {
    if IsPlu(body) then Sane(body[..PLU_BYTES]) && Printable(KeyOf(body[..PLU_BYTES]))
    else IsUpdateType(body) || IsKind(KindOf(body))
  }

  predicate AllShow(bodies: seq<seq<Byte>>) {
    forall i | 0 <= i < |bodies| :: Shows(bodies[i])
  }

  /** What the dump assumes of a segment: that the announced payload arrived, for it reads that far. */
  predicate Whole(buf: seq<Byte>) {
    IsDeep(buf) && MessageCount(buf) != 0 ==> HEADER_BYTES + PayloadLen(buf) <= |buf|
  }

  lemma EntryWellFormed(seqNo: int, pkt: nat, midx: nat, body: seq<Byte>, host: Host)
    requires HostWords(host) && Shows(body)
    ensures WellFormed(EntryOf(seqNo, pkt, midx, body, host))
  {
  }

  lemma {:induction false} EntryStarts(e: Entry)
    requires WellFormed(e)
    ensures var (seqNo, pkt, midx, kind) := (match e
              case Update(f, a) => (f.seqNo, a.pkt, a.midx, f.plu[0] as char)
              case TooShort(s) => (s.seqNo, s.pkt, s.midx, if s.bid then '8' else '5')
              case Other(seqNo, pkt, midx, kind, _) => (seqNo, pkt, midx, kind));
            [IntText(seqNo), Decimal(pkt), Decimal(midx), [kind]] <= Split(LineOf(e))
  {
    match e
    case Update(f, a) => UpdateWords(f, a);
    case TooShort(short) => ShownReads(ShortShown(short));
    case Other(seqNo, pkt, midx, kind, rest) => OtherWords(seqNo, pkt, midx, kind, rest);
  }

  /** Every message's line starts with its number, packet, position and type byte; type 0, or none, shows as `?`. */
  lemma {:induction false} MessageWords(seqNo: int, pkt: nat, midx: nat, body: seq<Byte>, host: Host)
    requires HostWords(host) && Shows(body)
    ensures [IntText(seqNo), Decimal(pkt), Decimal(midx),
             [if body == [] || body[0] == 0 then '?' else body[0] as char]] <=
            Split(LineOf(EntryOf(seqNo, pkt, midx, body, host)))
  {
    EntryWellFormed(seqNo, pkt, midx, body, host);
    EntryStarts(EntryOf(seqNo, pkt, midx, body, host));
  }

  /** The line of a short update: flags and time stamp as far as the bytes are there, dashes for the rest. */
  lemma {:induction false} ShortWords(seqNo: int, pkt: nat, midx: nat, body: seq<Byte>, host: Host)
    requires HostWords(host) && IsUpdateType(body) && |body| < 30
    ensures var bid := body[0] as char == '8';
            Split(LineOf(EntryOf(seqNo, pkt, midx, body, host))) ==
            [IntText(seqNo), Decimal(pkt), Decimal(midx), [if bid then '8' else '5'],
             if bid then "PLU_Buy" else "PLU_Sell", HexByte(if |body| < 2 then 0 else body[1])] +
            ShortStamp(body, host) + ["-", "-", "-", "-"]
  {
    StampBytes(body, host);
    var short := Short(seqNo, pkt, midx, body[0] == PLU_BUY, if |body| < 2 then 0 else body[1], StampOf(body, host));
    assert EntryOf(seqNo, pkt, midx, body, host) == TooShort(short);
    ShortReads(short);
  }

  lemma {:induction false} ShortReads(s: Short)
    requires ShowsWords(ShortShown(s))
    ensures Split(LineOf(TooShort(s))) ==
            [IntText(s.seqNo), Decimal(s.pkt), Decimal(s.midx), [if s.bid then '8' else '5'],
             if s.bid then "PLU_Buy" else "PLU_Sell", HexByte(s.flags)] + StampTexts(s.stamp) + ["-", "-", "-", "-"]
  {
    ShownReads(ShortShown(s));
  }

  lemma {:induction false} StampBytes(body: seq<Byte>, host: Host)
    ensures StampTexts(StampOf(body, host)) == ShortStamp(body, host)
  {
    if |body| >= 10 {
      SignedEight(body, 2);
    }
  }

  /** From ten bytes on the time stamp is there, as a number, a date and a time of day. */
  function ShortStamp(body: seq<Byte>, host: Host): seq<string> {
    if |body| < 10 then ["-", "-"] else
      var ns := Field(body, 2, 4) + 0x1_0000_0000 * Field(body, 6, 4) - if body[9] >= 128 then WORD else 0;
      [IntText(ns), host.date(ns), host.time(ns)]
  }

  lemma {:induction false} EntriesLast(bodies: seq<seq<Byte>>, body: seq<Byte>, first: int, pkt: nat, host: Host)
    ensures Entries(bodies + [body], first, pkt, host) ==
            Entries(bodies, first, pkt, host) + [EntryOf(first + |bodies|, pkt, |bodies|, body, host)]
  {
  }

  lemma {:induction false} EntriesWellFormed(bodies: seq<seq<Byte>>, first: int, pkt: nat, host: Host)
    requires HostWords(host) && AllShow(bodies)
    ensures AllWellFormed(Entries(bodies, first, pkt, host))
  {
    forall i | 0 <= i < |bodies| ensures WellFormed(Entries(bodies, first, pkt, host)[i]) {
      EntryWellFormed(first + i, pkt, i, bodies[i], host);
    }
  }

  /** The updates of the dump are those the framer finds, with the same numbers. */
  lemma {:induction false} WalkFindsUpdates(bodies: seq<seq<Byte>>, first: int, pkt: nat, host: Host)
    ensures UpdatesIn(Entries(bodies, first, pkt, host)) == Updates(bodies, first)
  {
    if bodies != [] {
      var n := |bodies| - 1;
      WalkFindsUpdates(bodies[..n], first, pkt, host);
      assert Entries(bodies, first, pkt, host)[..n] == Entries(bodies[..n], first, pkt, host);
    }
  }

  lemma {:induction false} SegmentUpdates(buf: seq<Byte>, pkt: nat, host: Host)
    ensures UpdatesIn(SegmentEntries(buf, pkt, host)) == UpdatesOf(buf)
  {
    if IsDeep(buf) {
      WalkFindsUpdates(BodiesOf(buf).bodies, FirstSeq(buf), pkt, host);
    }
  }

  /** No update among the bodies is shorter than its fields. */
  predicate NoShortUpdate(bodies: seq<seq<Byte>>) {
    forall i | 0 <= i < |bodies| :: !IsUpdateType(bodies[i]) || |bodies[i]| >= PLU_BYTES
  }

  lemma {:induction false} WalkFindsShort(bodies: seq<seq<Byte>>, first: int, pkt: nat, host: Host)
    ensures NoneShort(Entries(bodies, first, pkt, host)) <==> NoShortUpdate(bodies)
  {
    forall i | 0 <= i < |bodies|
      ensures Entries(bodies, first, pkt, host)[i].TooShort? <==> IsUpdateType(bodies[i]) && |bodies[i]| < PLU_BYTES
    {
    }
  }

  /** No update of the segment is shorter than its fields. */
  predicate NoShortIn(buf: seq<Byte>) {
    IsDeep(buf) ==> NoShortUpdate(BodiesOf(buf).bodies)
  }

  predicate KindsPrintIn(buf: seq<Byte>) {
    IsDeep(buf) ==> KindsPrint(BodiesOf(buf).bodies)
  }

  lemma {:induction false} SegmentShort(buf: seq<Byte>, pkt: nat, host: Host)
    ensures NoneShort(SegmentEntries(buf, pkt, host)) <==> NoShortIn(buf)
  {
    if IsDeep(buf) {
      WalkFindsShort(BodiesOf(buf).bodies, FirstSeq(buf), pkt, host);
    }
  }

  // The loop.

  /** The lines of these bodies have been printed. */
  ghost predicate Dumped(bodies: seq<seq<Byte>>, first: int, pkt: nat, host: Host, lines: seq<string>) {
    Printed(Entries(bodies, first, pkt, host), lines)
  }

  lemma {:induction false} DumpedNext(bodies: seq<seq<Byte>>, body: seq<Byte>, first: int, pkt: nat, host: Host,
                                      lines: seq<string>, line: string)
    requires Dumped(bodies, first, pkt, host, lines) && HostWords(host) && Shows(body)
    requires line == LineOf(EntryOf(first + |bodies|, pkt, |bodies|, body, host))
    ensures Dumped(bodies + [body], first, pkt, host, lines + [line])
  {
    EntryWellFormed(first + |bodies|, pkt, |bodies|, body, host);
    EntriesLast(bodies, body, first, pkt, host);
    LinesLast(Entries(bodies, first, pkt, host), EntryOf(first + |bodies|, pkt, |bodies|, body, host));
  }

  /** One message more to dump; `ahead` is what the walk finds after it. */
  lemma {:induction false} NextShows(whole: Walk, bodies: seq<seq<Byte>>, body: seq<Byte>, ahead: seq<seq<Byte>>)
    requires AllShow(whole.bodies) && whole.bodies == bodies + [body] + ahead
    ensures Shows(body)
  {
    assert whole.bodies[|bodies|] == body;
  }

  /** dump_msg. */
  method DumpMessage(seqNo: int, pkt: nat, midx: nat, body: seq<Byte>, host: Host) returns (line: string)
    ensures line == LineOf(EntryOf(seqNo, pkt, midx, body, host))
  {
    line := LineOf(EntryOf(seqNo, pkt, midx, body, host));
  }

  /** The same, after the lines of the bodies before it. */
  method NextLine(bodies: nat, body: seq<Byte>, first: int, pkt: nat, host: Host, ghost before: seq<seq<Byte>>,
                  lines: seq<string>) returns (more: seq<string>)
    requires bodies == |before| && Dumped(before, first, pkt, host, lines) && HostWords(host) && Shows(body)
    ensures Dumped(before + [body], first, pkt, host, more)
  {
    var line := DumpMessage(first + bodies, pkt, bodies, body, host);
    DumpedNext(before, body, first, pkt, host, lines, line);
    more := lines + [line];
  }

  /** iextp: the loop over the messages of a segment, which goes by the announced length alone. */
  method DumpSegment(buf: seq<Byte>, pkt: nat, host: Host) returns (lines: seq<string>)
    requires HostWords(host) && Whole(buf) && (IsDeep(buf) ==> AllShow(BodiesOf(buf).bodies))
    ensures Printed(SegmentEntries(buf, pkt, host), lines)
  {
    lines := [];
    if !IsDeep(buf) || MessageCount(buf) == 0 {
      return;
    }
    ghost var whole := BodiesOf(buf);
    AheadFirst(buf);
    lines := DumpBlocks(buf, FirstSeq(buf), MessageCount(buf), pkt, host, whole);
  }

  method DumpBlocks(buf: seq<Byte>, first: int, count: nat, pkt: nat, host: Host, ghost whole: Walk)
    returns (lines: seq<string>)
    requires HostWords(host) && HasHeader(buf) && HEADER_BYTES + PayloadLen(buf) <= |buf|
    requires Ahead(whole, [], buf, HEADER_BYTES, End(buf), count) && AllShow(whole.bodies)
    ensures Dumped(whole.bodies, first, pkt, host, lines)
  {
    ghost var bodies: seq<seq<Byte>> := [];
    var q: nat, end: nat, i: nat := HEADER_BYTES, HEADER_BYTES + PayloadLen(buf), 0;
    lines := [];
    while i < count && q + 2 <= end
      invariant i <= count && i == |bodies| && Ahead(whole, bodies, buf, q, end, count - i)
      invariant Dumped(bodies, first, pkt, host, lines)
      decreases count - i
    {
      var next := q + 2 + Field(buf, q, 2);
      if next > end {
        break;
      }
      var body := buf[q + 2..next];
      AheadNext(whole, bodies, buf, q, next, end, count - i);
      NextShows(whole, bodies, body, Blocks(buf, next, end, count - i - 1).bodies);
      lines := NextLine(i, body, first, pkt, host, bodies, lines);
      bodies := bodies + [body];
      q, i := next, i + 1;
    }
    AheadEnd(whole, bodies, buf, q, end, count - i);
  }
}
