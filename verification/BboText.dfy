/** The printed rows as the bytes that diff compares. */
module BboText {
  import opened Levels
  import opened PriceText
  import opened DumpText
  import opened Reference
  import opened Sequences

  /** A column and the tab after it. */
  function Cell(s: string, rest: string): string {
    s + ['\t'] + rest
  }

  function LineText(r: BboRow): string {
    Cell(r.seqNo, Cell(r.sym, Cell(r.bidPx, Cell(Decimal(r.bidSz), Cell(r.askPx, Decimal(r.askSz))))))
  }

  /** Both programs' row: columns between tabs, and a line end. */
  function RowText(r: BboRow): (s: string)
    ensures s != ""
  {
    LineText(r) + ['\n']
  }

  function FileText(rows: seq<BboRow>): (s: string)
    ensures rows != [] ==> s != ""
  {
    if rows == [] then "" else RowText(rows[0]) + FileText(rows[1..])
  }

  /** No tab and no line end: it can stand in a column. */
  predicate IsCell(s: string) {
    '\t' !in s && '\n' !in s
  }

  predicate AreCells(r: BboRow) {
    IsCell(r.seqNo) && IsCell(r.sym) && IsCell(r.bidPx) && IsCell(r.askPx)
  }

  predicate AllCells(rows: seq<BboRow>) {
    forall i | 0 <= i < |rows| :: AreCells(rows[i])
  }

  /** The columns of a line: what stands between its tabs. */
  function SplitTabs(s: string): (cells: seq<string>)
    ensures cells != []
  {
    if s == [] then [""] else
      var rest := SplitTabs(s[1..]);
      if s[0] == '\t' then [""] + rest else [[s[0]] + rest[0]] + rest[1..]
  }

  lemma {:induction false} SplitCell(a: string, rest: string)
    requires '\t' !in a
    ensures SplitTabs(Cell(a, rest)) == [a] + SplitTabs(rest)
    decreases |a|
  {
    var s := Cell(a, rest);
    if a == [] {
      assert s[1..] == rest;
    } else {
      assert s[1..] == Cell(a[1..], rest);
      SplitCell(a[1..], rest);
      assert a == [a[0]] + a[1..];
    }
  }

  lemma {:induction false} SplitLast(a: string)
    requires '\t' !in a
    ensures SplitTabs(a) == [a]
  {
    if a != [] {
      SplitLast(a[1..]);
      assert a == [a[0]] + a[1..];
    }
  }

  /** The columns of a row are number, symbol, bid price and size, ask price and size. */
  lemma {:induction false} RowColumns(r: BboRow)
    requires AreCells(r)
    ensures SplitTabs(LineText(r)) == [r.seqNo, r.sym, r.bidPx, Decimal(r.bidSz), r.askPx, Decimal(r.askSz)]
  {
    NumberIsCell(r.bidSz);
    NumberIsCell(r.askSz);
    var a5 := Decimal(r.askSz);
    var a4 := Cell(r.askPx, a5);
    var a3 := Cell(Decimal(r.bidSz), a4);
    var a2 := Cell(r.bidPx, a3);
    SplitLast(a5);
    SplitCell(r.askPx, a5);
    SplitCell(Decimal(r.bidSz), a4);
    SplitCell(r.bidPx, a3);
    SplitCell(r.sym, a2);
    SplitCell(r.seqNo, Cell(r.sym, a2));
  }

  lemma CellInLine(s: string, rest: string)
    requires '\n' !in s && '\n' !in rest
    ensures '\n' !in Cell(s, rest)
  {
    NotInEither('\n', s, ['\t']);
    NotInEither('\n', s + ['\t'], rest);
  }

  /** A row is one line. */
  lemma OneLine(r: BboRow)
    requires AreCells(r)
    ensures '\n' !in LineText(r)
  {
    NumberIsCell(r.bidSz);
    NumberIsCell(r.askSz);
    var a5 := Decimal(r.askSz);
    var a4 := Cell(r.askPx, a5);
    var a3 := Cell(Decimal(r.bidSz), a4);
    CellInLine(r.askPx, a5);
    CellInLine(Decimal(r.bidSz), a4);
    CellInLine(r.bidPx, a3);
    CellInLine(r.sym, Cell(r.bidPx, a3));
    CellInLine(r.seqNo, Cell(r.sym, Cell(r.bidPx, a3)));
  }

  /** A file is its lines, one after the other. */
  lemma {:induction false} FileLines(a: seq<BboRow>, r: BboRow)
    ensures FileText(a + [r]) == FileText(a) + RowText(r)
    decreases |a|
  {
    if a == [] {
      assert [] + [r] == [r] && [r][1..] == [];
      assert RowText(r) + "" == RowText(r) == "" + RowText(r);
    } else {
      assert (a + [r])[1..] == a[1..] + [r];
      FileLines(a[1..], r);
    }
  }

  lemma CutAt(c: char, a: string, x: string, b: string, y: string)
    requires c !in a && c !in b && a + [c] + x == b + [c] + y
    ensures a == b && x == y
  {
    PartitionAt(c, a, x);
    PartitionAt(c, b, y);
  }

  lemma NumberIsCell(n: nat)
    ensures IsCell(Decimal(n))
  {
  }

  lemma SameNumber(m: nat, n: nat)
    requires Decimal(m) == Decimal(n)
    ensures m == n
  {
    ValueDecimal(m);
    ValueDecimal(n);
  }

  /** Two lines are equal only if their columns are. */
  lemma LineReads(r: BboRow, s: BboRow)
    requires AreCells(r) && AreCells(s) && LineText(r) == LineText(s)
    ensures r == s
  {
    var a, b := SplitTabs(LineText(r)), SplitTabs(LineText(s));
    RowColumns(r);
    RowColumns(s);
    assert a[0] == b[0] && a[1] == b[1] && a[2] == b[2] && a[3] == b[3] && a[4] == b[4] && a[5] == b[5];
    SameNumber(r.bidSz, s.bidSz);
    SameNumber(r.askSz, s.askSz);
  }

  /** A row of cells can be told from its text, whatever follows. */
  lemma RowReads(r: BboRow, rest: string, s: BboRow, more: string)
    requires AreCells(r) && AreCells(s) && RowText(r) + rest == RowText(s) + more
    ensures r == s && rest == more
  {
    OneLine(r);
    OneLine(s);
    CutAt('\n', LineText(r), rest, LineText(s), more);
    LineReads(r, s);
  }

  /** Two files of rows are equal byte for byte iff the rows are. */
  lemma {:induction false} FilesTellApart(a: seq<BboRow>, b: seq<BboRow>)
    requires AllCells(a) && AllCells(b)
    ensures FileText(a) == FileText(b) <==> a == b
  {
    if a != [] && b != [] && FileText(a) == FileText(b) {
      RowReads(a[0], FileText(a[1..]), b[0], FileText(b[1..]));
      FilesTellApart(a[1..], b[1..]);
      assert a == [a[0]] + a[1..] && b == [b[0]] + b[1..];
    }
  }

  // The rows of both programs are rows of cells.

  lemma WordIsCell(s: string)
    requires forall i | 0 <= i < |s| :: !IsBlank(s[i])
    ensures IsCell(s)
  {
  }

  lemma IntIsCell(v: int)
    ensures IsCell(IntText(v))
  {
    IntIsWord(v);
    WordIsCell(IntText(v));
  }

  lemma PriceIsCell(v: int)
    ensures IsCell(FmtPx(v))
  {
    PriceIsWord(v);
    WordIsCell(FmtPx(v));
  }

  /** The replay's rows, from rows whose words come out of a split line. */
  lemma {:induction false} ReplayCells(rows: seq<Row>)
    requires forall i | 0 <= i < |rows| :: IsCell(rows[i].seqNo) && IsCell(rows[i].sym)
    ensures AllCells(ReplayAll(rows).out)
  {
    if rows != [] {
      var r, row := ReplayAll(rows[..|rows| - 1]), rows[|rows| - 1];
      ReplayCells(rows[..|rows| - 1]);
      EmittedCells(row.seqNo, row.sym, Changed(SidesOf(r.book, row.sym), row));
    }
  }

  lemma EmittedCells(seqNo: string, sym: string, s: Sides)
    requires IsCell(seqNo) && IsCell(sym)
    ensures AreCells(BboRowOf(seqNo, sym, s))
  {
    if s.bids != map[] {
      PriceIsCell(Best(Bid, s.bids));
    }
    if s.asks != map[] {
      PriceIsCell(Best(Ask, s.asks));
    }
  }
}
