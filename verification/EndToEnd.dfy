/** The pipeline prints what the reference replay prints, and exactly when. */
module EndToEnd {
  import opened Words
  import opened Wire
  import opened Levels
  import opened PriceText
  import opened Decode
  import opened SymTab
  import opened Framer
  import opened FramerRuns
  import opened Reference
  import opened Sequences
  import opened Desk
  import opened Dump
  import opened DumpText
  import opened SymbolText
  import Book
  import Horizon

  /** Rows of the symbol asked for. */
  function Selected(rows: seq<BboRow>, o: Options): seq<BboRow> {
    if rows == [] then [] else
      var before, last := Selected(rows[..|rows| - 1], o), rows[|rows| - 1];
      if o.emit && (o.filter == 0 || last.sym == Text(o.filter)) then before + [last] else before
  }

  lemma {:induction false} SelectedLast(rows: seq<BboRow>, last: BboRow, o: Options)
    ensures Selected(rows + [last], o) ==
            if o.emit && (o.filter == 0 || last.sym == Text(o.filter)) then Selected(rows, o) + [last]
            else Selected(rows, o)
  {
    assert (rows + [last])[..|rows|] == rows;
  }

  // The changes of one side of one symbol.

  function Keys(found: seq<Found>): seq<Word> {
    seq(|found|, i requires 0 <= i < |found| => KeyOf(found[i].plu))
  }

  ghost predicate AllPlus(found: seq<Found>) {
    forall i | 0 <= i < |found| :: Sane(found[i].plu) && IsPlu(found[i].plu)
  }

  function ChangeOf(f: Found): Change {
    Change(BookPrice(f.plu), SizeOf(f.plu))
  }

  ghost function SideChanges(found: seq<Found>, key: Word, side: Side): seq<Change> {
    if found == [] then [] else
      var before, f := SideChanges(found[..|found| - 1], key, side), found[|found| - 1];
      if KeyOf(f.plu) == key && SideOf(f.plu) == side then before + [ChangeOf(f)] else before
  }

  lemma {:induction false} ChangesLast(found: seq<Found>, f: Found, key: Word, side: Side)
    ensures SideChanges(found + [f], key, side) ==
            SideChanges(found, key, side) + if KeyOf(f.plu) == key && SideOf(f.plu) == side then [ChangeOf(f)] else []
  {
    assert (found + [f])[..|found|] == found;
    assert SideChanges(found, key, side) + [] == SideChanges(found, key, side);
  }

  lemma {:induction false} NoChanges(found: seq<Found>, key: Word, side: Side)
    requires key !in Keys(found)
    ensures SideChanges(found, key, side) == []
  {
    if found != [] {
      var n := |found| - 1;
      assert Keys(found)[n] == KeyOf(found[n].plu);
      assert Keys(found[..n]) == Keys(found)[..n];
      NoChanges(found[..n], key, side);
    }
  }

  // The desk: each side of each interned symbol is the run of its changes.

  ghost predicate SideSim(d: Desk, found: seq<Found>, i: nat, side: Side)
    requires Sized(d) && i < |d.names|
  {
    d.book.cells[Book.Cell(i, side)] == Run(side, SideChanges(found, d.names[i], side))
  }

  ghost predicate DeskSim(d: Desk, found: seq<Found>) {
    && Sized(d) && d.names == NamesAfter(Keys(found)) && d.dec.symDropped == 0
    && (forall i, side | 0 <= i < |d.names| :: SideSim(d, found, i, side))
    && (forall i, side: Side | |d.names| <= i < MAX_SYMBOLS :: d.book.cells[Book.Cell(i, side)] == [])
  }

  /** A symbol not seen before has an empty book and no changes. */
  lemma {:induction false} InternSim(d: Desk, found: seq<Found>, key: Word)
    requires DeskSim(d, found) && key in Interned(d.names, key)
    requires key !in d.names ==> key !in Keys(found)
    ensures var e := d.(names := Interned(d.names, key));
            Sized(e) && forall i, side | 0 <= i < |e.names| :: SideSim(e, found, i, side)
  {
    var e := d.(names := Interned(d.names, key));
    forall i, side | 0 <= i < |e.names| ensures SideSim(e, found, i, side) {
      if i < |d.names| {
        assert SideSim(d, found, i, side);
      } else {
        NoChanges(found, key, side);
      }
    }
  }

  lemma {:induction false} StoreSide(d: Desk, found: seq<Found>, f: Found, idx: nat, e: Desk, i: nat, side: Side)
    requires Sized(d) && Sized(e) && idx < |d.names| && i < |d.names| && SideSim(d, found, i, side)
    requires Distinct(d.names) && d.names[idx] == KeyOf(f.plu) && e.names == d.names
    requires e.book.cells == Book.Applied(d.book, UpdateOf(f.plu, idx)).cells
    ensures SideSim(e, found + [f], i, side)
  {
    ChangesLast(found, f, d.names[i], side);
    if i == idx && side == SideOf(f.plu) {
      RunLast(side, SideChanges(found, d.names[i], side), ChangeOf(f));
    } else {
      assert i == idx <==> d.names[i] == KeyOf(f.plu);
      assert SideChanges(found, d.names[i], side) + [] == SideChanges(found, d.names[i], side);
    }
  }

  lemma {:induction false} StoreSim(d: Desk, found: seq<Found>, f: Found, idx: nat, e: Desk)
    requires Sized(d) && Sized(e) && idx < |d.names|
    requires Distinct(d.names) && d.names[idx] == KeyOf(f.plu) && e.names == d.names
    requires forall i, side | 0 <= i < |d.names| :: SideSim(d, found, i, side)
    requires e.book.cells == Book.Applied(d.book, UpdateOf(f.plu, idx)).cells
    ensures forall i, side | 0 <= i < |e.names| :: SideSim(e, found + [f], i, side)
  {
    forall i, side | 0 <= i < |e.names| ensures SideSim(e, found + [f], i, side) {
      assert SideSim(d, found, i, side);
      StoreSide(d, found, f, idx, e, i, side);
    }
  }

  lemma KeysLast(found: seq<Found>, f: Found)
    ensures Keys(found + [f]) == Keys(found) + [KeyOf(f.plu)]
    ensures NamesAfter(Keys(found + [f])) == Interned(NamesAfter(Keys(found)), KeyOf(f.plu))
  {
    assert Keys(found + [f]) == Keys(found) + [KeyOf(f.plu)];
    assert Keys(found + [f])[..|found|] == Keys(found);
  }

  /** With room for the symbols, the desk's names are all of them. */
  lemma {:induction false} AllNamed(found: seq<Found>, f: Found)
    requires KeyOf(f.plu) != 0 && |Symbols(Keys(found + [f]))| <= MAX_SYMBOLS
    ensures var names, key := NamesAfter(Keys(found)), KeyOf(f.plu);
            && Distinct(names) && key in Interned(names, key)
            && (key !in names ==> key !in Keys(found))
            && |Symbols(Keys(found))| <= MAX_SYMBOLS
  {
    var key := KeyOf(f.plu);
    KeysLast(found, f);
    NamesDistinct(Keys(found));
    SymbolsCount(Keys(found), key);
    NamesCount(Keys(found));
    NamesCount(Keys(found + [f]));
    SymbolsAdd(Keys(found), key);
    assert key in Members(NamesAfter(Keys(found + [f])));
    assert key in Keys(found) ==> key in Symbols(Keys(found));
  }

  /** The index of one more message. */
  lemma {:induction false} IndexNext(d: Desk, found: seq<Found>, f: Found)
    requires DeskSim(d, found)
    requires KeyOf(f.plu) != 0 && |Symbols(Keys(found + [f]))| <= MAX_SYMBOLS
    ensures var names, idx := Interned(d.names, KeyOf(f.plu)), Answer(d.names, KeyOf(f.plu));
            && names == NamesAfter(Keys(found + [f])) && Distinct(names)
            && idx < |names| <= MAX_SYMBOLS && names[idx] == KeyOf(f.plu)
  {
    AllNamed(found, f);
    KeysLast(found, f);
    NamesDistinct(Keys(found + [f]));
  }

  /** The books after an update of symbol `idx`, on a desk that has its name. */
  lemma {:induction false} StoreNext(e: Desk, found: seq<Found>, f: Found, idx: nat, e': Desk)
    requires Sized(e) && Sized(e') && idx < |e.names|
    requires Distinct(e.names) && e.names[idx] == KeyOf(f.plu) && e.names == NamesAfter(Keys(found + [f]))
    requires forall i, side | 0 <= i < |e.names| :: SideSim(e, found, i, side)
    requires forall i, side: Side | |e.names| <= i < MAX_SYMBOLS :: e.book.cells[Book.Cell(i, side)] == []
    requires e'.names == e.names && e'.dec.symDropped == 0
    requires e'.book.cells == Book.Applied(e.book, UpdateOf(f.plu, idx)).cells
    ensures DeskSim(e', found + [f])
  {
    StoreSim(e, found, f, idx, e');
  }

  lemma ConsumeKnown(d: Desk, m: RxMsg, o: Options)
    requires Sized(d) && Answer(d.names, KeyOf(m.plu)) != INVALID
    ensures var e, idx := ConsumeOne(d, m, o), Answer(d.names, KeyOf(m.plu));
            && e.names == Interned(d.names, KeyOf(m.plu)) && e.dec.symDropped == d.dec.symDropped
            && e.book == Book.Applied(d.book, UpdateOf(m.plu, idx))
  {
  }

  /** The index and the books after one more message. */
  lemma {:induction false} DeskNext(d: Desk, found: seq<Found>, m: RxMsg, o: Options)
    requires DeskSim(d, found)
    requires KeyOf(m.plu) != 0 && |Symbols(Keys(found + [Payload(m)]))| <= MAX_SYMBOLS
    ensures DeskSim(ConsumeOne(d, m, o), found + [Payload(m)])
    ensures var names, idx := Interned(d.names, KeyOf(m.plu)), Answer(d.names, KeyOf(m.plu));
            idx < |names| <= MAX_SYMBOLS && names[idx] == KeyOf(m.plu)
  {
    var f := Payload(m);
    AllNamed(found, f);
    IndexNext(d, found, f);
    InternSim(d, found, KeyOf(m.plu));
    ConsumeKnown(d, m, o);
    var idx := Answer(d.names, KeyOf(m.plu));
    StoreNext(d.(names := Interned(d.names, KeyOf(m.plu))), found, f, idx, ConsumeOne(d, m, o));
  }

  // The replay: each dict is the run of the same changes.

  function DictOf(side: Side, s: Sides): Dict {
    if side.Bid? then s.bids else s.asks
  }

  ghost predicate DictSim(book: DictBook, found: seq<Found>, key: Word, side: Side) {
    DictOf(side, SidesOf(book, Text(key))) == DictRun(SideChanges(found, key, side))
  }

  ghost predicate BookSim(book: DictBook, found: seq<Found>, keys: set<Word>) {
    forall k, side | k in keys :: DictSim(book, found, k, side)
  }

  lemma {:induction false} BookNext(r: Replay, found: seq<Found>, f: Found, keys: set<Word>)
    requires TellsApart(keys) && KeyOf(f.plu) in keys && BookSim(r.book, found, keys)
    ensures BookSim(Replayed(r, RowOf(f)).book, found + [f], keys)
  {
    var book' := Replayed(r, RowOf(f)).book;
    forall k, side | k in keys ensures DictSim(book', found + [f], k, side) {
      assert DictSim(r.book, found, k, side);
      ChangesLast(found, f, k, side);
      if k == KeyOf(f.plu) && side == SideOf(f.plu) {
        RunLast(side, SideChanges(found, k, side), ChangeOf(f));
      } else {
        assert SideChanges(found, k, side) + [] == SideChanges(found, k, side);
      }
    }
  }

  // One row.

  ghost predicate RightSide(found: seq<Found>, key: Word, side: Side) {
    SameBest(side, Run(side, SideChanges(found, key, side)), DictRun(SideChanges(found, key, side)))
  }

  /** Both sides of the symbol show the dict's best. */
  ghost predicate RightSides(found: seq<Found>, key: Word) {
    RightSide(found, key, Bid) && RightSide(found, key, Ask)
  }

  function PxText(lv: seq<Level>): string {
    if lv == [] then "-" else FmtPxC(lv[0].price)
  }

  function FrontSize(lv: seq<Level>): nat {
    if lv == [] then 0 else lv[0].size
  }

  ghost function BestText(side: Side, m: Dict): string {
    if m == map[] then "-" else FmtPx(Best(side, m))
  }

  ghost function BestSize(side: Side, m: Dict): nat {
    if m == map[] then 0 else m[Best(side, m)]
  }

  /** The text of a side is the replay's iff its front is the dict's best. */
  lemma {:induction false} FrontText(side: Side, lv: seq<Level>, m: Dict)
    ensures PxText(lv) == BestText(side, m) && FrontSize(lv) == BestSize(side, m) <==> SameBest(side, lv, m)
  {
    if lv != [] {
      SameText(lv[0].price);
      TextIsPrice(lv[0].price, if m == map[] then 0 else Best(side, m));
      if SameBest(side, lv, m) {
        BestUnique(side, m, lv[0].price);
      }
    } else if m != map[] {
      TextIsPrice(Best(side, m), 0);
    }
  }

  /** The row printed from the arrays is the row emitted from the dicts iff both sides are right. */
  lemma {:induction false} SameLine(seqNo: int, d: Desk, book: DictBook, found: seq<Found>, i: nat)
    requires Sized(d) && i < |d.names| && forall side :: SideSim(d, found, i, side)
    requires forall side :: DictSim(book, found, d.names[i], side)
    ensures BboLine(seqNo, SymName(d.names, i), BboOfSym(d.book, i)) ==
            BboRowOf(IntText(seqNo), Text(d.names[i]), SidesOf(book, Text(d.names[i])))
            <==> RightSides(found, d.names[i])
  {
    var key := d.names[i];
    var s := SidesOf(book, Text(key));
    assert SideSim(d, found, i, Bid) && SideSim(d, found, i, Ask);
    assert DictSim(book, found, key, Bid) && DictSim(book, found, key, Ask);
    FrontText(Bid, d.book.cells[Book.Cell(i, Bid)], s.bids);
    FrontText(Ask, d.book.cells[Book.Cell(i, Ask)], s.asks);
  }

  // Whole runs.

  /** Every row due shows two right sides: at each complete event that passes the filter. */
  ghost predicate RightRows(found: seq<Found>, o: Options) {
    found == [] ||
    var f := found[|found| - 1];
    && RightRows(found[..|found| - 1], o)
    && (Epc(f.plu) && Prints(o, KeyOf(f.plu)) ==> RightSides(found, KeyOf(f.plu)))
  }

  /** The symbols of the updates, and the one asked for. */
  function SymbolsOf(found: seq<Found>, o: Options): set<Word> {
    Members(Keys(found)) + if o.filter == 0 then {} else {o.filter}
  }

  /**
    * What the comparison needs of the input: updates with a price above -2^63, and at most MAX_SYMBOLS symbols that
    * print as one word each, which tells them apart (from the filter too).
    */
  ghost predicate Comparable(found: seq<Found>, o: Options) {
    AllPlus(found) && TellsApart(SymbolsOf(found, o)) && |Symbols(Keys(found))| <= MAX_SYMBOLS
  }

  /** The desk has come as far as the replay has with these updates; the rows agree iff they are all right. */
  ghost predicate Agrees(d: Desk, r: Replay, found: seq<Found>, keys: set<Word>, o: Options) {
    && DeskSim(d, found) && BookSim(r.book, found, keys)
    && d.epc == |r.out| && |d.lines| == |Selected(r.out, o)|
    && (d.lines == Selected(r.out, o) <==> RightRows(found, o))
  }

  lemma AppendedSame<T>(a: seq<T>, x: T, b: seq<T>, y: T)
    requires |a| == |b|
    ensures a + [x] == b + [y] <==> a == b && x == y
  {
    if a + [x] == b + [y] {
      assert (a + [x])[..|a|] == a && (b + [y])[..|b|] == b;
      assert (a + [x])[|a|] == x && (b + [y])[|b|] == y;
    }
  }

  lemma {:induction false} RightRowsLast(found: seq<Found>, f: Found, o: Options)
    ensures RightRows(found + [f], o) <==>
            RightRows(found, o) && (Epc(f.plu) && Prints(o, KeyOf(f.plu)) ==> RightSides(found + [f], KeyOf(f.plu)))
  {
    assert (found + [f])[..|found|] == found;
  }

  /** What the two programs print for one update. */
  lemma {:induction false} RowsNext(d: Desk, r: Replay, found: seq<Found>, m: RxMsg, o: Options, keys: set<Word>,
                                    idx: nat, e: Desk)
    requires Agrees(d, r, found, keys, o)
    requires TellsApart(keys) && KeyOf(m.plu) in keys && (o.filter != 0 ==> o.filter in keys)
    requires DeskSim(e, found + [Payload(m)]) && idx < |e.names| && e.names[idx] == KeyOf(m.plu)
    requires BookSim(Replayed(r, RowOf(Payload(m))).book, found + [Payload(m)], keys)
    requires e.lines == d.lines + if Epc(m.plu) && Prints(o, KeyOf(m.plu))
                                  then [BboLine(m.seqNo, SymName(e.names, idx), BboOfSym(e.book, idx))] else []
    ensures var out := Selected(Replayed(r, RowOf(Payload(m))).out, o);
            |e.lines| == |out| && (e.lines == out <==> RightRows(found + [Payload(m)], o))
  {
    var key, f, row := KeyOf(m.plu), Payload(m), RowOf(Payload(m));
    var r' := Replayed(r, row);
    RightRowsLast(found, f, o);
    if Epc(m.plu) {
      var y := BboRowOf(row.seqNo, row.sym, SidesOf(r'.book, row.sym));
      assert SidesOf(r'.book, row.sym) == Changed(SidesOf(r.book, row.sym), row);
      assert r'.out == r.out + [y];
      SelectedLast(r.out, y, o);
      SameLine(m.seqNo, e, r'.book, found + [f], idx);
      if Prints(o, key) {
        AppendedSame(d.lines, BboLine(m.seqNo, SymName(e.names, idx), BboOfSym(e.book, idx)), Selected(r.out, o), y);
      }
    } else {
      assert r.out + [] == r.out;
    }
  }

  lemma {:induction false} AgreesNext(d: Desk, r: Replay, found: seq<Found>, m: RxMsg, o: Options, keys: set<Word>)
    requires Agrees(d, r, found, keys, o)
    requires TellsApart(keys) && KeyOf(m.plu) in keys && (o.filter != 0 ==> o.filter in keys)
    requires |Symbols(Keys(found + [Payload(m)]))| <= MAX_SYMBOLS
    ensures Agrees(ConsumeOne(d, m, o), Replayed(r, RowOf(Payload(m))), found + [Payload(m)], keys, o)
  {
    var f := Payload(m);
    assert (found + [f])[|found|] == f;
    TextIsNotZero(KeyOf(m.plu));
    DeskNext(d, found, m, o);
    BookNext(r, found, f, keys);
    RowsNext(d, r, found, m, o, keys, Answer(d.names, KeyOf(m.plu)), ConsumeOne(d, m, o));
  }

  lemma PayloadsLast(msgs: seq<RxMsg>)
    requires msgs != []
    ensures var n := |msgs| - 1;
            Payloads(msgs) == Payloads(msgs[..n]) + [Payload(msgs[n])]
  {
  }

  lemma {:induction false} Starts(keys: set<Word>, o: Options)
    ensures Agrees(START, Replay(map[], []), [], keys, o)
  {
    assert forall i, side: Side | 0 <= i < MAX_SYMBOLS :: START.book.cells[Book.Cell(i, side)] == [];
  }

  lemma ReplayLast(found: seq<Found>, f: Found)
    ensures ReplayAll(Rows(found + [f])) == Replayed(ReplayAll(Rows(found)), RowOf(f))
  {
    RowsLast(found, f);
    assert Rows(found + [f])[..|found|] == Rows(found);
  }

  /** `keys` has every symbol there is to tell apart. */
  ghost predicate Covers(keys: set<Word>, found: seq<Found>, o: Options) {
    && |Symbols(Keys(found))| <= MAX_SYMBOLS
    && TellsApart(keys) && (forall k | k in Keys(found) :: k in keys) && (o.filter != 0 ==> o.filter in keys)
  }

  lemma {:induction false} CoversBefore(keys: set<Word>, found: seq<Found>, f: Found, o: Options)
    requires Covers(keys, found + [f], o)
    ensures Covers(keys, found, o) && KeyOf(f.plu) in keys
  {
    assert (found + [f])[|found|] == f;
    assert forall i | 0 <= i < |found| :: found[i] == (found + [f])[i];
    KeysLast(found, f);
    SymbolsAdd(Keys(found), KeyOf(f.plu));
    if KeyOf(f.plu) != 0 {
      SymbolsCount(Keys(found), KeyOf(f.plu));
    }
    assert KeyOf(f.plu) in Keys(found + [f]);
  }

  lemma {:induction false} AgreesAlways(msgs: seq<RxMsg>, o: Options, keys: set<Word>)
    requires Covers(keys, Payloads(msgs), o)
    ensures Agrees(ConsumeAll(START, msgs, o), ReplayAll(Rows(Payloads(msgs))), Payloads(msgs), keys, o)
  {
    if msgs == [] {
      assert Payloads(msgs) == [] && Rows([]) == [];
      Starts(keys, o);
    } else {
      var n := |msgs| - 1;
      var found := Payloads(msgs[..n]);
      PayloadsLast(msgs);
      CoversBefore(keys, found, Payload(msgs[n]), o);
      AgreesAlways(msgs[..n], o, keys);
      AgreesNext(ConsumeAll(START, msgs[..n], o), ReplayAll(Rows(found)), found, msgs[n], o, keys);
      ReplayLast(found, Payload(msgs[n]));
    }
  }

  /**
    * For every run of messages: the rows printed are those of the replay of the same updates iff every row due shows
    * two right sides. In any case as many rows are printed, no message is dropped for want of an index, and an event is
    * complete exactly where the replay emits a row.
    */
  lemma {:induction false} PrintsTheReplay(msgs: seq<RxMsg>, found: seq<Found>, o: Options)
    requires Payloads(msgs) == found && Comparable(found, o)
    ensures var d, rows := ConsumeAll(START, msgs, o), Selected(ReplayAll(Rows(found)).out, o);
            && (d.lines == rows <==> RightRows(found, o)) && |d.lines| == |rows|
            && d.dec == DecodeStats(|msgs|, 0) && d.epc == |ReplayAll(Rows(found)).out|
  {
    AgreesAlways(msgs, o, SymbolsOf(found, o));
    ConsumeAllCounts(START, msgs, o);
  }

  // When the rows are right.

  /** The side's dict has always fitted, or the side has lost fewer than 64 levels to deletes since it did not. */
  ghost predicate InHorizon(found: seq<Found>, key: Word, side: Side) {
    var changes := SideChanges(found, key, side);
    NeverFull(changes) || Horizon.LateDeletes(side, changes) < BOOK_MAX_LEVELS
  }

  /** So it is for both sides of every row due. */
  ghost predicate WithinHorizon(found: seq<Found>, o: Options) {
    found == [] ||
    var f := found[|found| - 1];
    && WithinHorizon(found[..|found| - 1], o)
    && (Epc(f.plu) && Prints(o, KeyOf(f.plu)) ==>
          InHorizon(found, KeyOf(f.plu), Bid) && InHorizon(found, KeyOf(f.plu), Ask))
  }

  lemma {:induction false} HorizonIsRight(found: seq<Found>, o: Options)
    requires WithinHorizon(found, o)
    ensures RightRows(found, o)
  {
    if found != [] {
      var f := found[|found| - 1];
      HorizonIsRight(found[..|found| - 1], o);
      if Epc(f.plu) && Prints(o, KeyOf(f.plu)) {
        Horizon.FewLateDeletes(Bid, SideChanges(found, KeyOf(f.plu), Bid));
        Horizon.FewLateDeletes(Ask, SideChanges(found, KeyOf(f.plu), Ask));
      }
    }
  }

  /** No dict of the replay ever holds more prices than a side of the book has levels. */
  ghost predicate DictsFit(found: seq<Found>) {
    forall key, side :: NeverFull(SideChanges(found, key, side))
  }

  lemma {:induction false} DictsFitBefore(found: seq<Found>)
    requires found != [] && DictsFit(found)
    ensures DictsFit(found[..|found| - 1])
  {
    var init, f := found[..|found| - 1], found[|found| - 1];
    forall key, side ensures NeverFull(SideChanges(init, key, side)) {
      assert NeverFull(SideChanges(found, key, side));
      if KeyOf(f.plu) == key && SideOf(f.plu) == side {
        var run := SideChanges(found, key, side);
        assert run[..|run| - 1] == SideChanges(init, key, side);
      }
    }
  }

  /** Dicts that fit never leave the horizon. */
  lemma {:induction false} FitIsWithin(found: seq<Found>, o: Options)
    requires DictsFit(found)
    ensures WithinHorizon(found, o)
  {
    if found != [] {
      var key := KeyOf(found[|found| - 1].plu);
      DictsFitBefore(found);
      FitIsWithin(found[..|found| - 1], o);
      assert NeverFull(SideChanges(found, key, Bid)) && NeverFull(SideChanges(found, key, Ask));
    }
  }

  // The smallest run there is to compare.

  lemma {:induction false} OneSymbol(u: Found)
    requires Padded(KeyOf(u.plu))
    ensures TellsApart(SymbolsOf([u], Options(true, 0))) && |Symbols(Keys([u]))| <= 1
  {
    var key := KeyOf(u.plu);
    assert Keys([u]) == [key] && Members([key]) == {key};
    PaddedTellApart({key});
    assert Symbols([key]) <= {key};
    assert {key} == Symbols([key]) + ({key} - Symbols([key]));
  }

  /** The row of a symbol with one level, on the side that the type byte says. */
  function RowOfOne(u: Found): BboRow {
    var seqNo, sym, px, size := IntText(u.seqNo), Text(KeyOf(u.plu)), FmtPx(BookPrice(u.plu)), SizeOf(u.plu);
    if u.plu[0] as char == '8' then BboRow(seqNo, sym, px, size, "-", 0) else BboRow(seqNo, sym, "-", 0, px, size)
  }

  lemma {:induction false} ReplayOne(u: Found)
    requires IsPlu(u.plu) && Epc(u.plu) && 0 < SizeOf(u.plu)
    ensures ReplayAll(Rows([u])).out == [RowOfOne(u)]
  {
    var m: Dict := map[BookPrice(u.plu) := SizeOf(u.plu)];
    assert Rows([u]) == [RowOf(u)] && [RowOf(u)][..0] == [];
    assert DictApply(map[], BookPrice(u.plu), SizeOf(u.plu)) == m;
    assert BookPrice(u.plu) in m;
    PluLayout(u.plu);
    BestUnique(SideOf(u.plu), m, BookPrice(u.plu));
  }

  /** One level that completes its event meets every condition of the comparison, and makes the row one expects. */
  lemma {:induction false} OneLevel(u: Found)
    requires Sane(u.plu) && IsPlu(u.plu) && Epc(u.plu) && 0 < SizeOf(u.plu) && Padded(KeyOf(u.plu))
    ensures Comparable([u], Options(true, 0)) && WithinHorizon([u], Options(true, 0))
    ensures ReplayAll(Rows([u])).out == [RowOfOne(u)]
  {
    OneSymbol(u);
    ReplayOne(u);
    OneIsWithin(u, Options(true, 0));
  }

  lemma {:induction false} OneIsWithin(u: Found, o: Options)
    ensures WithinHorizon([u], o)
  {
    assert [u][..0] == [];
    OneChange(u, Bid);
    OneChange(u, Ask);
  }

  lemma {:induction false} OneChange(u: Found, side: Side)
    ensures InHorizon([u], KeyOf(u.plu), side)
  {
    ChangesBound([u], KeyOf(u.plu), side);
    Horizon.DeletesBound(side, SideChanges([u], KeyOf(u.plu), side));
  }

  lemma {:induction false} ChangesBound(found: seq<Found>, key: Word, side: Side)
    ensures |SideChanges(found, key, side)| <= |found|
  {
    if found != [] {
      ChangesBound(found[..|found| - 1], key, side);
    }
  }

  // Beyond the horizon: a run of changes on one side of one symbol, as updates on the wire.

  /** Every update is of this symbol and completes its event. */
  ghost predicate AllOf(found: seq<Found>, key: Word) {
    forall i | 0 <= i < |found| :: KeyOf(found[i].plu) == key && Epc(found[i].plu)
  }

  function UpdateFor(side: Side, key: Word, seqNo: int, c: Change): Found {
    Found(seqNo, Encode(Fields(side, true, 0, ToBytes(key, SYMBOL_BYTES), c.size, c.price)))
  }

  lemma {:induction false} UpdateAsks(side: Side, key: Word, seqNo: int, c: Change)
    requires c.price > -TWO_63
    ensures var f := UpdateFor(side, key, seqNo, c);
            && Sane(f.plu) && IsPlu(f.plu) && KeyOf(f.plu) == key && SideOf(f.plu) == side && Epc(f.plu)
            && ChangeOf(f) == c
  {
    var fields := Fields(side, true, 0, ToBytes(key, SYMBOL_BYTES), c.size, c.price);
    DecodeEncoded(fields);
    SameKey(KeyOf(Encode(fields)), key);
  }

  /** Updates that ask for a run of changes and complete an event each. */
  function UpdatesFor(side: Side, key: Word, run: seq<Change>): seq<Found> {
    seq(|run|, i requires 0 <= i < |run| => UpdateFor(side, key, i, run[i]))
  }

  lemma {:induction false} UpdatesForAll(side: Side, key: Word, run: seq<Change>)
    requires forall c | c in run :: c.price > -TWO_63
    ensures AllPlus(UpdatesFor(side, key, run)) && AllOf(UpdatesFor(side, key, run), key)
  {
    forall i | 0 <= i < |run|
      ensures var f := UpdatesFor(side, key, run)[i];
              Sane(f.plu) && IsPlu(f.plu) && KeyOf(f.plu) == key && Epc(f.plu)
    {
      UpdateAsks(side, key, i, run[i]);
    }
  }

  lemma UpdatesForLast(side: Side, key: Word, run: seq<Change>, c: Change)
    ensures UpdatesFor(side, key, run + [c]) == UpdatesFor(side, key, run) + [UpdateFor(side, key, |run|, c)]
  {
  }

  lemma {:induction false} UpdatesAsk(side: Side, key: Word, run: seq<Change>)
    requires forall c | c in run :: c.price > -TWO_63
    ensures AllPlus(UpdatesFor(side, key, run)) && SideChanges(UpdatesFor(side, key, run), key, side) == run
  {
    UpdatesForAll(side, key, run);
    if run != [] {
      var init, c := run[..|run| - 1], run[|run| - 1];
      assert run == init + [c];
      UpdatesAsk(side, key, init);
      UpdateAsks(side, key, |init|, c);
      UpdatesForLast(side, key, init, c);
      ChangesLast(UpdatesFor(side, key, init), UpdateFor(side, key, |init|, c), key, side);
    }
  }

  lemma SameKey(k: Word, l: Word)
    requires ToBytes(k, SYMBOL_BYTES) == ToBytes(l, SYMBOL_BYTES)
    ensures k == l
  {
    EightBytes();
    EncodeDecode(k, SYMBOL_BYTES);
    EncodeDecode(l, SYMBOL_BYTES);
  }

  lemma {:induction false} OneKey(found: seq<Found>, key: Word, o: Options)
    requires AllPlus(found) && AllOf(found, key) && Padded(key) && o.filter == 0
    ensures Comparable(found, o)
  {
    assert forall k | k in Keys(found) :: k == key;
    PaddedTellApart({key});
    TellsApartSubset(SymbolsOf(found, o), {key});
    assert {key} == Symbols(Keys(found)) + ({key} - Symbols(Keys(found)));
  }

  /** On one side of one symbol 65 levels arrive and the 64 best go again. */
  function DrainUpdates(side: Side, key: Word): seq<Found> {
    UpdatesFor(side, key, Horizon.Drain(side, BOOK_MAX_LEVELS))
  }

  /** The comparison does fail beyond the horizon: these updates meet every condition, and the last row is wrong. */
  lemma {:induction false} BeyondHorizon(side: Side, key: Word)
    requires Padded(key)
    ensures var found, o := DrainUpdates(side, key), Options(true, 0);
            && AllPlus(found) && SideChanges(found, key, side) == Horizon.Drain(side, BOOK_MAX_LEVELS)
            && Comparable(found, o) && !RightRows(found, o)
  {
    var found := DrainUpdates(side, key);
    Horizon.DrainPrices(side, BOOK_MAX_LEVELS);
    UpdatesForAll(side, key, Horizon.Drain(side, BOOK_MAX_LEVELS));
    UpdatesAsk(side, key, Horizon.Drain(side, BOOK_MAX_LEVELS));
    OneKey(found, key, Options(true, 0));
    Horizon.HorizonIsSharp(side);
    LastRowWrong(found, key, side);
  }

  lemma {:induction false} LastRowWrong(found: seq<Found>, key: Word, side: Side)
    requires AllOf(found, key) && found != [] && !RightSide(found, key, side)
    ensures !RightRows(found, Options(true, 0))
  {
  }
}
