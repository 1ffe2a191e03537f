/** The consumer: decode, intern, apply to the book, and print the best bid and offer when an event is complete. */
module Desk {
  import opened Words
  import opened Wire
  import opened Levels
  import opened PriceText
  import opened Decode
  import opened DumpText
  import opened SymTab
  import opened Framer
  import opened Reference
  import opened Sequences
  import Book

  // Symbol text.

  /** Trailing spaces and zero bytes go. */
  function Trim(s: seq<Byte>): seq<Byte> {
    if s != [] && (s[|s| - 1] == 32 || s[|s| - 1] == 0) then Trim(s[..|s| - 1]) else s
  }

  /** Printing stops at the first zero byte. */
  function CString(s: seq<Byte>): seq<Byte> {
    if s == [] || s[0] == 0 then [] else [s[0]] + CString(s[1..])
  }

  function Chars(s: seq<Byte>): string {
    seq(|s|, i requires 0 <= i < |s| => s[i] as char)
  }

  function Text(key: Word): string {
    Chars(CString(Trim(ToBytes(key, SYMBOL_BYTES))))
  }

  /** ll_symtab_name, as printed. */
  function SymName(names: seq<Word>, idx: nat): string {
    if idx >= |names| then "?" else Text(names[idx])
  }

  /** The name array is zero where no index was given. */
  function NameAt(names: seq<Word>, idx: nat): Word {
    if idx < |names| then names[idx] else 0
  }

  // One message.

  datatype DecodeStats = DecodeStats(decoded: nat, symDropped: nat)

  datatype DeepUpdate = DeepUpdate(rxTsc: nat, seqNo: int, afterGap: bool, tsNs: int, change: Book.Update, epc: bool)

  function Decoded(m: RxMsg, sym: nat): DeepUpdate {
    DeepUpdate(m.rxTsc, m.seqNo, m.afterGap, TimestampOf(m.plu), UpdateOf(m.plu, sym), Epc(m.plu))
  }

  /** Decoding the wire form of an update gives its fields, with the time, number and flag of the message. */
  lemma {:induction false} DecodedFields(m: RxMsg, f: Fields, sym: nat)
    requires |f.symbol| == SYMBOL_BYTES && m.plu == Encode(f)
    ensures Decoded(m, sym) ==
            DeepUpdate(m.rxTsc, m.seqNo, m.afterGap, f.ts, Book.Update(sym, f.side, f.price, f.size), f.epc)
  {
    DecodeEncoded(f);
  }

  /** --bbo and --symbol; a filter of 0 lets every symbol through. */
  datatype Options = Options(emit: bool, filter: Word)

  /** Everything the consumer has: symbol table, books, printed rows, counters. */
  datatype Desk = Desk(names: seq<Word>, book: Book.State, lines: seq<BboRow>, dec: DecodeStats, epc: nat)

  const START: Desk := Desk([], Book.State(Book.NoLevels(), Book.NO_STATS), [], DecodeStats(0, 0), 0)

  predicate Sized(d: Desk) {
    |d.names| <= MAX_SYMBOLS && |d.book.cells| == Book.CELLS
  }

  function BboLine(seqNo: int, sym: string, b: Book.Bbo): BboRow {
    BboRow(IntText(seqNo), sym,
           if b.hasBid then FmtPxC(b.bidPx) else "-", b.bidSz, if b.hasAsk then FmtPxC(b.askPx) else "-", b.askSz)
  }

  function BboOfSym(b: Book.State, sym: nat): Book.Bbo
    requires |b.cells| == Book.CELLS && sym < MAX_SYMBOLS
  {
    Book.BboOf(b.cells[Book.Cell(sym, Bid)], b.cells[Book.Cell(sym, Ask)])
  }

  predicate Prints(o: Options, key: Word) {
    o.emit && (o.filter == 0 || key == o.filter)
  }

  /** A row for the symbol, once its event is complete. */
  function Emitted(d: Desk, seqNo: int, sym: nat, o: Options): Desk
    requires Sized(d) && sym < MAX_SYMBOLS
  {
    var e := d.(epc := d.epc + 1);
    if Prints(o, NameAt(d.names, sym)) then
      e.(lines := d.lines + [BboLine(seqNo, SymName(d.names, sym), BboOfSym(d.book, sym))])
    else e
  }

  /** on_update. */
  function AfterUpdate(d: Desk, u: DeepUpdate, o: Options): Desk
    requires Sized(d) && u.change.sym < MAX_SYMBOLS
  {
    var b := d.(book := Book.Applied(d.book, u.change));
    if u.epc then Emitted(b, u.seqNo, u.change.sym, o) else b
  }

  function ConsumeOne(d: Desk, m: RxMsg, o: Options): (d': Desk)
    requires Sized(d)
    ensures Sized(d')
  {
    var key := KeyOf(m.plu);
    var names, idx := Interned(d.names, key), Answer(d.names, key);
    if idx == INVALID then d.(names := names, dec := d.dec.(symDropped := d.dec.symDropped + 1))
    else AfterUpdate(d.(names := names, dec := d.dec.(decoded := d.dec.decoded + 1)), Decoded(m, idx), o)
  }

  predicate AllSane(msgs: seq<RxMsg>) {
    forall i | 0 <= i < |msgs| :: Sane(msgs[i].plu)
  }

  function ConsumeAll(d: Desk, msgs: seq<RxMsg>, o: Options): (d': Desk)
    requires Sized(d)
    ensures Sized(d')
  {
    if msgs == [] then d else ConsumeOne(ConsumeAll(d, msgs[..|msgs| - 1], o), msgs[|msgs| - 1], o)
  }

  lemma {:induction false} ConsumeMore(d: Desk, a: seq<RxMsg>, b: seq<RxMsg>, o: Options)
    requires Sized(d)
    ensures ConsumeAll(d, a + b, o) == ConsumeAll(ConsumeAll(d, a, o), b, o)
    decreases |b|
  {
    if b == [] {
      assert a + b == a;
    } else {
      var init, last := b[..|b| - 1], b[|b| - 1];
      assert b == init + [last] && a + b == (a + init) + [last];
      ConsumeLast(d, a + init, last, o);
      ConsumeMore(d, a, init, o);
      ConsumeLast(ConsumeAll(d, a, o), init, last, o);
    }
  }

  lemma {:induction false} ConsumeLast(d: Desk, msgs: seq<RxMsg>, m: RxMsg, o: Options)
    requires Sized(d)
    ensures ConsumeAll(d, msgs + [m], o) == ConsumeOne(ConsumeAll(d, msgs, o), m, o)
  {
    assert (msgs + [m])[..|msgs|] == msgs;
  }

  lemma {:induction false} ConsumeNext(d: Desk, msgs: seq<RxMsg>, n: nat, o: Options)
    requires Sized(d) && n < |msgs|
    ensures ConsumeAll(d, msgs[..n + 1], o) == ConsumeOne(ConsumeAll(d, msgs[..n], o), msgs[n], o)
  {
    assert msgs[..n + 1][..n] == msgs[..n];
  }

  /** Once there is a symbol, an update with the key 0 goes to the very book of the first one. */
  lemma ZeroSharesBook(d: Desk, m: RxMsg, n: RxMsg, o: Options)
    requires Sized(d) && Distinct(d.names) && d.names != []
    requires KeyOf(m.plu) == 0 && KeyOf(n.plu) == d.names[0] != 0
    ensures ConsumeOne(d, m, o).book == Book.Applied(d.book, UpdateOf(m.plu, 0))
    ensures ConsumeOne(d, n, o).book == Book.Applied(d.book, UpdateOf(n.plu, 0))
  {
    KnownAnswer(d.names, 0);
  }

  /** A message whose symbol gets no index is counted, and that is all. */
  lemma Unindexed(d: Desk, m: RxMsg, o: Options)
    requires Sized(d) && KeyOf(m.plu) != 0 && KeyOf(m.plu) !in d.names && |d.names| == 9216
    ensures ConsumeOne(d, m, o) == d.(dec := d.dec.(symDropped := d.dec.symDropped + 1))
  {
  }

  lemma ConsumeOneCounts(d: Desk, m: RxMsg, o: Options)
    requires Sized(d)
    ensures var d' := ConsumeOne(d, m, o);
            var known := Answer(d.names, KeyOf(m.plu)) != INVALID;
            && d'.dec.decoded == d.dec.decoded + (if known then 1 else 0)
            && d'.dec.symDropped == d.dec.symDropped + (if known then 0 else 1)
            && d'.book.st.applied == d.book.st.applied + (if known then 1 else 0)
  {
  }

  /** Every message is either decoded or counted as dropped for want of an index, and every decoded one is applied. */
  lemma {:induction false} ConsumeAllCounts(d: Desk, msgs: seq<RxMsg>, o: Options)
    requires Sized(d)
    ensures var d' := ConsumeAll(d, msgs, o);
            && (d'.dec.decoded - d.dec.decoded) + (d'.dec.symDropped - d.dec.symDropped) == |msgs|
            && d'.book.st.applied - d.book.st.applied == d'.dec.decoded - d.dec.decoded
    decreases |msgs|
  {
    if msgs != [] {
      var n := |msgs| - 1;
      ConsumeAllCounts(d, msgs[..n], o);
      ConsumeOneCounts(ConsumeAll(d, msgs[..n], o), msgs[n], o);
    }
  }
}
