/** The dump of a capture, line by line, and that the replay reads back from it the updates of the wire. */
module Dump {
  import opened Wire
  import opened Decode
  import opened Desk
  import opened DumpText
  import opened PriceText
  import opened Reference
  import opened Sequences
  import opened SymbolText
  import opened Wrappers

  /** What the replay has to make of an update. */
  function RowOf(f: Found): Row {
    Row(IntText(f.seqNo), f.plu[0] == PLU_BUY, f.plu[1], Text(KeyOf(f.plu)), SizeOf(f.plu), BookPrice(f.plu))
  }

  function Rows(found: seq<Found>): seq<Row> {
    seq(|found|, i requires 0 <= i < |found| => RowOf(found[i]))
  }

  /** What the replay does not look at: the packet, the position in it, and the time stamp as date and time of day. */
  datatype Aside = Aside(pkt: nat, midx: nat, date: string, time: string)

  // The printf of dump_msg. All messages share the first columns.

  function FirstColumns(seqNo: int, pkt: nat, midx: nat, kind: char): seq<Column> {
    [ Column(0, 8, false, IntText(seqNo)),
      Column(1, 7, false, Decimal(pkt)),
      Column(1, 4, false, Decimal(midx)),
      Column(2, 1, false, [kind]) ]
  }

  function NameColumns(bid: bool, flags: Byte): seq<Column> {
    [Column(2, 14, true, if bid then "PLU_Buy" else "PLU_Sell"), Column(1, 4, false, HexByte(flags))]
  }

  /** The time stamp, as a number and as date and time of day; both are missing from a message of under 10 bytes. */
  datatype Stamp = Unstamped | Stamped(ns: int, date: string, time: string)

  function StampColumns(s: Stamp): seq<Column> {
    match s
    case Unstamped => [Column(1, 19, true, "-"), Column(1, 29, true, "-")]
    case Stamped(ns, date, time) =>
      [Column(1, 19, true, IntText(ns)), Column(1, 0, true, date),
       Column(1, if |date| < 28 then 28 - |date| else 0, true, time)]
  }

  function LastColumns(sym: string, size: string, px: string): seq<Column> {
    [Column(1, 8, true, sym), Column(1, 10, false, size), Column(1, 12, false, px), Column(2, 0, true, "-")]
  }

  /** What the line of an update shows. */
  datatype Shown = Shown(seqNo: int, pkt: nat, midx: nat, kind: char, bid: bool, flags: Byte, stamp: Stamp,
                         sym: string, size: string, px: string)

  function ShownColumns(v: Shown): seq<Column> {
    FirstColumns(v.seqNo, v.pkt, v.midx, v.kind) +
    (NameColumns(v.bid, v.flags) + (StampColumns(v.stamp) + LastColumns(v.sym, v.size, v.px)))
  }

  predicate ShowsWords(v: Shown) {
    && !IsBlank(v.kind) && IsWord(v.sym) && IsWord(v.size) && IsWord(v.px)
    && (v.stamp.Stamped? ==> IsWord(v.stamp.date) && IsWord(v.stamp.time))
  }

  lemma FirstWords(seqNo: int, pkt: nat, midx: nat, kind: char)
    requires !IsBlank(kind)
    ensures AreWords(FirstColumns(seqNo, pkt, midx, kind))
  {
    IntIsWord(seqNo);
    DigitsAreWords(pkt);
    DigitsAreWords(midx);
  }

  lemma NameWords(bid: bool, flags: Byte)
    ensures AreWords(NameColumns(bid, flags))
  {
    HexIsWord(flags);
  }

  lemma StampWords(s: Stamp)
    requires s.Stamped? ==> IsWord(s.date) && IsWord(s.time)
    ensures AreWords(StampColumns(s))
  {
    if s.Stamped? {
      IntIsWord(s.ns);
    }
  }

  lemma ShownWords(v: Shown)
    requires ShowsWords(v)
    ensures AreWords(ShownColumns(v))
  {
    FirstWords(v.seqNo, v.pkt, v.midx, v.kind);
    NameWords(v.bid, v.flags);
    StampWords(v.stamp);
    var last := LastColumns(v.sym, v.size, v.px);
    WordsAppend(StampColumns(v.stamp), last);
    WordsAppend(NameColumns(v.bid, v.flags), StampColumns(v.stamp) + last);
    WordsAppend(FirstColumns(v.seqNo, v.pkt, v.midx, v.kind),
                NameColumns(v.bid, v.flags) + (StampColumns(v.stamp) + last));
  }

  /** The line reads as the words shown, in the places where the script looks. */
  lemma {:induction false} ShownReads(v: Shown)
    requires ShowsWords(v)
    ensures Split(Format(ShownColumns(v))) ==
            [IntText(v.seqNo), Decimal(v.pkt), Decimal(v.midx), [v.kind], if v.bid then "PLU_Buy" else "PLU_Sell",
             HexByte(v.flags)] + StampTexts(v.stamp) + [v.sym, v.size, v.px, "-"]
  {
    ShownWords(v);
    SplitFormat(ShownColumns(v));
    PartTexts(v);
    FourTexts(FirstColumns(v.seqNo, v.pkt, v.midx, v.kind), NameColumns(v.bid, v.flags), StampColumns(v.stamp),
              LastColumns(v.sym, v.size, v.px));
  }

  lemma {:induction false} PartTexts(v: Shown)
    ensures Texts(FirstColumns(v.seqNo, v.pkt, v.midx, v.kind)) + Texts(NameColumns(v.bid, v.flags)) ==
            [IntText(v.seqNo), Decimal(v.pkt), Decimal(v.midx), [v.kind], if v.bid then "PLU_Buy" else "PLU_Sell",
             HexByte(v.flags)]
    ensures Texts(StampColumns(v.stamp)) == StampTexts(v.stamp)
    ensures Texts(LastColumns(v.sym, v.size, v.px)) == [v.sym, v.size, v.px, "-"]
  {
  }

  lemma FourTexts(a: seq<Column>, b: seq<Column>, c: seq<Column>, d: seq<Column>)
    ensures Texts(a + (b + (c + d))) == Texts(a) + Texts(b) + Texts(c) + Texts(d)
  {
    TextsAppend(c, d);
    TextsAppend(b, c + d);
    TextsAppend(a, b + (c + d));
    AppendAssoc(Texts(a) + Texts(b), Texts(c), Texts(d));
    AppendAssoc(Texts(a), Texts(b), Texts(c) + Texts(d));
  }

  /** Number, date and time of day, or two dashes. */
  function StampTexts(s: Stamp): seq<string> {
    if s.Unstamped? then ["-", "-"] else [IntText(s.ns), s.date, s.time]
  }

  lemma TextsAppend(a: seq<Column>, b: seq<Column>)
    ensures Texts(a + b) == Texts(a) + Texts(b)
  {
  }

  /** A Price Level Update of at least 30 bytes; a blank symbol shows as `-`. */
  function UpdateShown(f: Found, a: Aside): Shown {
    var sym := Text(KeyOf(f.plu));
    Shown(f.seqNo, a.pkt, a.midx, f.plu[0] as char, f.plu[0] == PLU_BUY, f.plu[1],
          Stamped(TimestampOf(f.plu), a.date, a.time), if sym == "" then "-" else sym,
          Decimal(SizeOf(f.plu)), FmtPxC(BookPrice(f.plu)))
  }

  lemma {:induction false} UpdateShowsWords(f: Found, a: Aside)
    requires IsPlu(f.plu) && Printable(KeyOf(f.plu)) && IsWord(a.date) && IsWord(a.time)
    ensures ShowsWords(UpdateShown(f, a))
  {
    PrintableIsWord(KeyOf(f.plu));
    DigitsAreWords(SizeOf(f.plu));
    SameText(BookPrice(f.plu));
    PriceIsWord(BookPrice(f.plu));
    TypeChar(f.plu);
  }

  lemma TypeChar(plu: Plu)
    requires IsPlu(plu)
    ensures ([plu[0] as char] == "8" <==> plu[0] == PLU_BUY) && ([plu[0] as char] == "5" <==> plu[0] == PLU_SELL)
    ensures !IsBlank(plu[0] as char)
  {
    if plu[0] == PLU_BUY {
      assert plu[0] as char == '8';
    } else {
      assert plu[0] as char == '5';
    }
  }

  lemma TextParses(f: Found)
    ensures ParsePx(FmtPxC(BookPrice(f.plu))) == Some(BookPrice(f.plu))
  {
    SameText(BookPrice(f.plu));
    ParseFmt(BookPrice(f.plu));
  }

  lemma {:induction false} WordsRead(f: Found, p: seq<string>)
    requires IsPlu(f.plu) && |p| == 13
    requires p[0] == IntText(f.seqNo) && p[3] == [f.plu[0] as char] && p[5] == HexByte(f.plu[1])
    requires p[9] == Text(KeyOf(f.plu)) && p[10] == Decimal(SizeOf(f.plu)) && p[11] == FmtPxC(BookPrice(f.plu))
    ensures ReadWords(p) == Read(RowOf(f))
  {
    TypeChar(f.plu);
    HexReads(f.plu[1]);
    ValueDecimal(SizeOf(f.plu));
    TextParses(f);
  }

  /** The script reads from the printed line exactly the update. */
  lemma {:induction false} LineReads(f: Found, a: Aside)
    requires IsPlu(f.plu) && Printable(KeyOf(f.plu)) && IsWord(a.date) && IsWord(a.time)
    ensures ReadLine(Format(ShownColumns(UpdateShown(f, a)))) == Read(RowOf(f))
  {
    UpdateShowsWords(f, a);
    ShownReads(UpdateShown(f, a));
    PrintableIsWord(KeyOf(f.plu));
    WordsRead(f, Split(Format(ShownColumns(UpdateShown(f, a)))));
  }

  /** The words of an update's line. */
  lemma {:induction false} UpdateWords(f: Found, a: Aside)
    requires IsPlu(f.plu) && Printable(KeyOf(f.plu)) && IsWord(a.date) && IsWord(a.time)
    ensures Split(Format(ShownColumns(UpdateShown(f, a)))) ==
            [IntText(f.seqNo), Decimal(a.pkt), Decimal(a.midx), [f.plu[0] as char],
             if f.plu[0] as char == '8' then "PLU_Buy" else "PLU_Sell", HexByte(f.plu[1])] +
            [IntText(TimestampOf(f.plu)), a.date, a.time] +
            [Text(KeyOf(f.plu)), Decimal(SizeOf(f.plu)), FmtPx(BookPrice(f.plu)), "-"]
  {
    UpdateShowsWords(f, a);
    ShownReads(UpdateShown(f, a));
    PrintableIsWord(KeyOf(f.plu));
    SameText(BookPrice(f.plu));
    PluLayout(f.plu);
  }

  lemma BlankCell(c: Column, lead: string, trail: string)
    requires |lead| == c.Lead() && (forall i | 0 <= i < |lead| :: lead[i] == ' ')
    requires |trail| == c.Trail() && (forall i | 0 <= i < |trail| :: trail[i] == ' ')
    ensures c.Printed() == lead + c.text + trail
  {
    assert Spaces(c.Lead()) == lead && Spaces(c.Trail()) == trail;
  }

  /** The columns of a line, to the letter. */
  lemma {:induction false} FirstExample()
    ensures var c := FirstColumns(15, 1, 0, '8');
            && |c| == 4 && c[0].Printed() == "      15" && c[1].Printed() == "       1" && c[2].Printed() == "    0"
            && c[3].Printed() == "  8"
  {
    var c := FirstColumns(15, 1, 0, '8');
    assert Decimal(15) == "15" && Decimal(1) == "1" && Decimal(0) == "0";
    BlankCell(c[0], "      ", "");
    BlankCell(c[1], "       ", "");
    BlankCell(c[2], "    ", "");
    BlankCell(c[3], "  ", "");
  }

  lemma {:induction false} NameExample()
    ensures var c := NameColumns(true, 26);
            |c| == 2 && c[0].Printed() == "  PLU_Buy       " && c[1].Printed() == " 0x1a"
  {
    var c := NameColumns(true, 26);
    BlankCell(c[0], "  ", "       ");
    BlankCell(c[1], " ", "");
  }

  /** Date and time of day make up one column of 29 characters, a blank between them. */
  lemma {:induction false} StampPlaces(ns: int, date: string, time: string)
    ensures StampColumns(Unstamped) == [Column(1, 19, true, "-"), Column(1, 29, true, "-")]
    ensures var c := StampColumns(Stamped(ns, date, time));
            && |c| == 3 && c[0] == Column(1, 19, true, IntText(ns))
            && c[1].Printed() + c[2].Printed() == Column(1, 29, true, date + " " + time).Printed()
  {
    var c := StampColumns(Stamped(ns, date, time));
    var whole := Column(1, 29, true, date + " " + time);
    assert c[2].Trail() == whole.Trail();
    assert c[1].Printed() == Spaces(1) + date by {
      assert Spaces(0) == "";
    }
    assert Spaces(1) == " ";
  }

  lemma {:induction false} LastExample()
    ensures var c := LastColumns("ZIEXT", "100", "12.3400");
            && |c| == 4 && c[0].Printed() == " ZIEXT   " && c[1].Printed() == "        100"
            && c[2].Printed() == "      12.3400" && c[3].Printed() == "  -"
  {
    var c := LastColumns("ZIEXT", "100", "12.3400");
    BlankCell(c[0], " ", "   ");
    BlankCell(c[1], "        ", "");
    BlankCell(c[2], "      ", "");
    BlankCell(c[3], "  ", "");
  }

  /** An update of fewer than 30 bytes: no symbol, size and price, and a time stamp only from 10 bytes on. */
  datatype Short = Short(seqNo: int, pkt: nat, midx: nat, bid: bool, flags: Byte, stamp: Stamp)

  function ShortShown(s: Short): Shown {
    Shown(s.seqNo, s.pkt, s.midx, if s.bid then '8' else '5', s.bid, s.flags, s.stamp, "-", "-", "-")
  }

  /** On the line of a short update the script stops: where the size should be it finds a dash. */
  lemma {:induction false} ShortFails(s: Short)
    requires ShowsWords(ShortShown(s))
    ensures ReadLine(Format(ShownColumns(ShortShown(s)))) == Failed
  {
    ShownReads(ShortShown(s));
    var p := Split(Format(ShownColumns(ShortShown(s))));
    assert p[3] == (if s.bid then "8" else "5") && p[10] == "-";
    assert !IsDigit("-"[0]);
  }

  // A whole dump: lines of updates among lines of other messages.

  /** A message of another type shows its type byte; the columns after it are `rest`. */
  datatype Entry =
    | Update(f: Found, aside: Aside)
    | TooShort(short: Short)
    | Other(seqNo: int, pkt: nat, midx: nat, kind: char, rest: string)

  function UpdatesIn(dump: seq<Entry>): seq<Found> {
    if dump == [] then [] else
      var before, last := UpdatesIn(dump[..|dump| - 1]), dump[|dump| - 1];
      if last.Update? then before + [last.f] else before
  }

  predicate WellFormed(e: Entry) {
    match e
    case Update(f, a) => Sane(f.plu) && IsPlu(f.plu) && Printable(KeyOf(f.plu)) && IsWord(a.date) && IsWord(a.time)
    case TooShort(short) => ShowsWords(ShortShown(short))
    case Other(_, _, _, kind, rest) => IsKind(kind) && NoBreak(rest)
  }

  /** The type byte prints, and not as that of an update. */
  predicate IsKind(kind: char) {
    '!' <= kind <= '~' && kind != '8' && kind != '5'
  }

  function OtherColumns(seqNo: int, pkt: nat, midx: nat, kind: char, rest: string): seq<Column> {
    FirstColumns(seqNo, pkt, midx, kind) + [Column(2, 0, true, rest)]
  }

  lemma {:induction false} OtherWords(seqNo: int, pkt: nat, midx: nat, kind: char, rest: string)
    requires IsKind(kind)
    ensures [IntText(seqNo), Decimal(pkt), Decimal(midx), [kind]] <=
            Split(Format(OtherColumns(seqNo, pkt, midx, kind, rest)))
  {
    var cols := OtherColumns(seqNo, pkt, midx, kind, rest);
    FirstWords(seqNo, pkt, midx, kind);
    assert cols[..4] == FirstColumns(seqNo, pkt, midx, kind);
    SplitFront(cols, 4);
    assert Texts(cols[..4]) == [IntText(seqNo), Decimal(pkt), Decimal(midx), [kind]];
  }

  /** The other columns follow after two blanks. */
  lemma {:induction false} OtherText(seqNo: int, pkt: nat, midx: nat, kind: char, rest: string)
    ensures var first := Format(FirstColumns(seqNo, pkt, midx, kind));
            Format(OtherColumns(seqNo, pkt, midx, kind, rest)) == first[..|first| - 1] + "  " + rest + "\n"
  {
    var last := Column(2, 0, true, rest);
    assert Format([last]) == "  " + rest + "\n" by {
      BlankCell(last, "  ", "");
      assert [last][1..] == [];
    }
    FormatAppend(FirstColumns(seqNo, pkt, midx, kind), [last]);
  }

  /** The script passes over a line of another type, whatever its other columns. */
  lemma {:induction false} OtherSkipped(seqNo: int, pkt: nat, midx: nat, kind: char, rest: string)
    requires IsKind(kind)
    ensures ReadLine(Format(OtherColumns(seqNo, pkt, midx, kind, rest))) == Skipped
  {
    OtherWords(seqNo, pkt, midx, kind, rest);
    assert [kind] != "8" && [kind] != "5" by {
      assert "8"[0] == '8' && "5"[0] == '5';
    }
  }

  function LineOf(e: Entry): string {
    match e
    case Update(f, a) => Format(ShownColumns(UpdateShown(f, a)))
    case TooShort(short) => Format(ShownColumns(ShortShown(short)))
    case Other(seqNo, pkt, midx, kind, rest) => Format(OtherColumns(seqNo, pkt, midx, kind, rest))
  }

  predicate AllWellFormed(dump: seq<Entry>) {
    forall i | 0 <= i < |dump| :: WellFormed(dump[i])
  }

  function Lines(dump: seq<Entry>): seq<string> {
    Map(LineOf, dump)
  }

  lemma LinesLast(dump: seq<Entry>, e: Entry)
    ensures Lines(dump + [e]) == Lines(dump) + [LineOf(e)]
  {
    MapAppend(LineOf, dump, [e]);
  }

  /** These lines are the dump's. */
  ghost predicate Printed(dump: seq<Entry>, lines: seq<string>) {
    AllWellFormed(dump) && lines == Lines(dump)
  }

  lemma PrintedAppend(a: seq<Entry>, x: seq<string>, b: seq<Entry>, y: seq<string>)
    requires Printed(a, x) && Printed(b, y)
    ensures Printed(a + b, x + y)
  {
    MapAppend(LineOf, a, b);
  }

  lemma {:induction false} WordsBreakless(cols: seq<Column>)
    requires AreWords(cols)
    ensures Breakless(cols)
  {
    forall i | 0 <= i < |cols| ensures NoBreak(cols[i].text) {
      WordNoBreak(cols[i].text);
    }
  }

  /** One printf, one line. */
  lemma {:induction false} EntryOneLine(e: Entry)
    requires WellFormed(e)
    ensures IsLine(LineOf(e))
  {
    match e
    case Update(f, a) =>
      UpdateShowsWords(f, a);
      ShownOneLine(UpdateShown(f, a));
    case TooShort(short) => ShownOneLine(ShortShown(short));
    case Other(seqNo, pkt, midx, kind, rest) =>
      FirstWords(seqNo, pkt, midx, kind);
      WordsBreakless(FirstColumns(seqNo, pkt, midx, kind));
      FormatOneLine(OtherColumns(seqNo, pkt, midx, kind, rest));
  }

  lemma ShownOneLine(v: Shown)
    requires ShowsWords(v)
    ensures IsLine(Format(ShownColumns(v)))
  {
    ShownWords(v);
    WordsBreakless(ShownColumns(v));
    FormatOneLine(ShownColumns(v));
  }

  /** Iterating over the file of a dump gives its lines. */
  lemma {:induction false} LinesRead(dump: seq<Entry>)
    requires AllWellFormed(dump)
    ensures LinesOf(FileOf(Lines(dump))) == Lines(dump)
  {
    forall i | 0 <= i < |dump| ensures IsLine(Lines(dump)[i]) {
      assert WellFormed(dump[i]);
      EntryOneLine(dump[i]);
    }
    LinesOfFile(Lines(dump));
  }

  /** What the script makes of the three kinds of line. */
  lemma LineKinds(e: Entry)
    requires WellFormed(e)
    ensures ReadLine(LineOf(e)) == if e.Update? then Read(RowOf(e.f)) else if e.TooShort? then Failed else Skipped
  {
    match e
    case Update(f, a) => LineReads(f, a);
    case TooShort(short) => ShortFails(short);
    case Other(seqNo, pkt, midx, kind, rest) => OtherSkipped(seqNo, pkt, midx, kind, rest);
  }

  lemma {:induction false} EntryReads(lines: seq<string>, e: Entry)
    requires WellFormed(e)
    ensures var (rows, ok) := ReadRows(lines);
            ReadRows(lines + [LineOf(e)]) ==
            (if ok && e.Update? then rows + [RowOf(e.f)] else rows, ok && !e.TooShort?)
  {
    ReadLast(lines, LineOf(e));
    LineKinds(e);
  }

  lemma RowsLast(found: seq<Found>, f: Found)
    ensures Rows(found + [f]) == Rows(found) + [RowOf(f)]
  {
  }

  predicate NoneShort(dump: seq<Entry>) {
    forall i | 0 <= i < |dump| :: !dump[i].TooShort?
  }

  lemma NoneShortLast(dump: seq<Entry>)
    requires dump != []
    ensures NoneShort(dump) <==> NoneShort(dump[..|dump| - 1]) && !dump[|dump| - 1].TooShort?
  {
    var init := dump[..|dump| - 1];
    if NoneShort(init) && !dump[|dump| - 1].TooShort? {
      forall i | 0 <= i < |dump| ensures !dump[i].TooShort? {
        assert i < |init| ==> dump[i] == init[i];
      }
    }
  }

  /**
    * The script gets through a dump iff no update of it is short, and then it reads the rows of the updates, in order.
    */
  lemma {:induction false} DumpReads(dump: seq<Entry>)
    requires AllWellFormed(dump)
    ensures ReadRows(Lines(dump)).1 <==> NoneShort(dump)
    ensures NoneShort(dump) ==> ReadRows(Lines(dump)).0 == Rows(UpdatesIn(dump))
  {
    if dump == [] {
      assert Rows(UpdatesIn(dump)) == [];
    } else {
      var init, last := dump[..|dump| - 1], dump[|dump| - 1];
      assert WellFormed(last);
      DumpReads(init);
      NoneShortLast(dump);
      LinesLast(init, last);
      assert dump == init + [last];
      EntryReads(Lines(init), last);
      if last.Update? {
        RowsLast(UpdatesIn(init), last.f);
      }
    }
  }
}
