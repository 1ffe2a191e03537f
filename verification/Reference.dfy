/** The independent replay: dicts of prices keyed by symbol text, fed from the text dump. */
module Reference {
  import opened DumpText
  import opened Levels
  import opened PriceText

  /** What the replay takes from the line of a Price Level Update. */
  datatype Row = Row(seqNo: string, bid: bool, flags: nat, sym: string, size: nat, px: int)

  /** One emitted row. */
  datatype BboRow = BboRow(seqNo: string, sym: string, bidPx: string, bidSz: nat, askPx: string, askSz: nat)

  // Scan the dump.

  /** A line of another type is skipped; on a line that lacks a column or has none of the numbers the script stops. */
  datatype Scan = Skipped | Read(row: Row) | Failed

  function ReadLine(line: string): Scan {
    ReadWords(Split(line))
  }

  function ReadWords(p: seq<string>): Scan {
    if |p| <= 3 then Failed
    else if p[3] != "8" && p[3] != "5" then Skipped
    else if |p| <= 11 then Failed
    else
      match (ToHex(p[5]), ToInt(p[10]), ParsePx(p[11]))
      case (Some(flags), Some(size), Some(px)) =>
        Read(Row(p[0], p[3] == "8", flags, p[9], size, px))
      case _ => Failed
  }

  /** Columns after the twelfth are not looked at, and of a line of another type none after the fourth. */
  lemma LaterWords(p: seq<string>)
    ensures |p| >= 12 ==> ReadWords(p) == ReadWords(p[..12])
    ensures |p| >= 4 && p[3] != "8" && p[3] != "5" ==> ReadWords(p) == Skipped
  {
  }

  /** The rows up to the first line on which the script stops, and whether it gets through. */
  function ReadRows(lines: seq<string>): (seq<Row>, bool) {
    if lines == [] then ([], true) else
      var (rows, ok) := ReadRows(lines[..|lines| - 1]);
      if !ok then (rows, false) else
        match ReadLine(lines[|lines| - 1])
        case Skipped => (rows, true)
        case Read(row) => (rows + [row], true)
        case Failed => (rows, false)
  }

  lemma {:induction false} ReadLast(lines: seq<string>, line: string)
    ensures var (rows, ok) := ReadRows(lines);
            ReadRows(lines + [line]) ==
            if !ok || ReadLine(line).Failed? then (rows, false)
            else if ReadLine(line).Read? then (rows + [ReadLine(line).row], true) else (rows, true)
  {
    assert (lines + [line])[..|lines|] == lines;
  }

  // The dict book.

  datatype Sides = Sides(bids: Dict, asks: Dict)

  type DictBook = map<string, Sides>

  const NO_SIDES := Sides(map[], map[])

  function SidesOf(b: DictBook, sym: string): Sides {
    if sym in b then b[sym] else NO_SIDES
  }

  function Changed(s: Sides, row: Row): Sides {
    if row.bid then s.(bids := DictApply(s.bids, row.px, row.size)) else s.(asks := DictApply(s.asks, row.px, row.size))
  }

  ghost predicate BestIn(side: Side, keys: set<int>, p: int) {
    p in keys && forall q | q in keys :: Key(side, p) <= Key(side, q)
  }

  /** max of the bids, min of the asks: the one best price. */
  ghost function Best(side: Side, m: Dict): (p: int)
    requires m != map[]
    ensures IsBest(side, m, p)
  {
    assert m.Keys != {};
    BestExists(side, m.Keys);
    var p :| BestIn(side, m.Keys, p);
    p
  }

  lemma {:induction false} BestExists(side: Side, keys: set<int>)
    requires keys != {}
    ensures exists p :: BestIn(side, keys, p)
    decreases keys
  {
    SomeKey(keys);
    var p :| p in keys;
    var others := keys - {p};
    if others == {} {
      assert keys == {p};
      assert BestIn(side, keys, p);
    } else {
      BestExists(side, others);
      var r :| BestIn(side, others, r);
      assert keys == others + {p};
      assert BestIn(side, keys, if Key(side, p) <= Key(side, r) then p else r);
    }
  }

  lemma BestUnique(side: Side, m: Dict, p: int)
    requires IsBest(side, m, p)
    ensures m != map[] && Best(side, m) == p
  {
  }

  ghost function BboRowOf(seqNo: string, sym: string, s: Sides): BboRow {
    BboRow(
      seqNo, sym,
      if s.bids == map[] then "-" else FmtPx(Best(Bid, s.bids)),
      if s.bids == map[] then 0 else s.bids[Best(Bid, s.bids)],
      if s.asks == map[] then "-" else FmtPx(Best(Ask, s.asks)),
      if s.asks == map[] then 0 else s.asks[Best(Ask, s.asks)])
  }

  datatype Replay = Replay(book: DictBook, out: seq<BboRow>)

  ghost function Replayed(r: Replay, row: Row): Replay {
    var s := Changed(SidesOf(r.book, row.sym), row);
    Replay(r.book[row.sym := s], r.out + if row.flags % 2 == 1 then [BboRowOf(row.seqNo, row.sym, s)] else [])
  }

  ghost function ReplayAll(rows: seq<Row>): Replay {
    if rows == [] then Replay(map[], []) else Replayed(ReplayAll(rows[..|rows| - 1]), rows[|rows| - 1])
  }

  /** `max` and `min` over a dict's keys. */
  method BestKey(side: Side, m: Dict) returns (p: int)
    requires m != map[]
    ensures p == Best(side, m)
  {
    assert m.Keys != {};
    SomeKey(m.Keys);
    p :| p in m.Keys;
    var rest := m.Keys - {p};
    while rest != {}
      invariant rest <= m.Keys && p in m.Keys
      invariant forall q | q in m.Keys - rest :: Key(side, p) <= Key(side, q)
      decreases rest
    {
      SomeKey(rest);
      var q :| q in rest;
      if Key(side, q) < Key(side, p) {
        p := q;
      }
      rest := rest - {q};
    }
    BestUnique(side, m, p);
  }

  method EmitRow(seqNo: string, sym: string, s: Sides) returns (row: BboRow)
    ensures row == BboRowOf(seqNo, sym, s)
  {
    var bidPx, bidSz: nat, askPx, askSz: nat := "-", 0, "-", 0;
    if s.bids != map[] {
      var p := BestKey(Bid, s.bids);
      bidPx, bidSz := FmtPx(p), s.bids[p];
    }
    if s.asks != map[] {
      var p := BestKey(Ask, s.asks);
      askPx, askSz := FmtPx(p), s.asks[p];
    }
    row := BboRow(seqNo, sym, bidPx, bidSz, askPx, askSz);
  }

  method ChangeSide(s: Sides, row: Row) returns (t: Sides)
    ensures t == Changed(s, row)
  {
    var m: Dict := if row.bid then s.bids else s.asks;
    if row.size == 0 {
      m := m - {row.px};
    } else {
      m := m[row.px := row.size];
    }
    t := if row.bid then s.(bids := m) else s.(asks := m);
  }

  method ReplayRow(book: DictBook, row: Row) returns (book': DictBook, out: seq<BboRow>)
    ensures forall before :: Replayed(Replay(book, before), row) == Replay(book', before + out)
  {
    var s := if row.sym in book then book[row.sym] else NO_SIDES;
    s := ChangeSide(s, row);
    book', out := book[row.sym := s], [];
    if row.flags % 2 == 1 {
      var line := EmitRow(row.seqNo, row.sym, s);
      out := [line];
    }
  }

  /** The script's main: the header is passed over, then one line after the other; `ok` is false where it stops. */
  method ReplayDump(lines: seq<string>) returns (out: seq<BboRow>, book: DictBook, ok: bool)
    ensures lines == [] ==> !ok && out == []
    ensures lines != [] ==> Replay(book, out) == ReplayAll(ReadRows(lines[1..]).0) && ok == ReadRows(lines[1..]).1
  {
    book, out, ok := map[], [], lines != [];
    if !ok {
      return;
    }
    ghost var body := lines[1..];
    assert body[..0] == [];
    var i := 1;
    while i < |lines| && ok
      invariant 1 <= i <= |lines|
      invariant (Replay(book, out), ok) == (ReplayAll(ReadRows(body[..i - 1]).0), ReadRows(body[..i - 1]).1)
      invariant !ok ==> ReadRows(body) == (ReadRows(body[..i - 1]).0, false)
      decreases |lines| - i
    {
      assert body[..i] == body[..i - 1] + [lines[i]];
      ReadLast(body[..i - 1], lines[i]);
      match ReadLine(lines[i]) {
        case Skipped =>
        case Read(row) =>
          var more;
          book, more := ReplayRow(book, row);
          out := out + more;
        case Failed => ok := false;
      }
      StoppedRows(body, i);
      i := i + 1;
    }
    assert body[..|body|] == body;
  }

  /** A line on which the script stops decides for all that follow. */
  lemma {:induction false} StoppedRows(lines: seq<string>, n: nat)
    requires n <= |lines|
    ensures !ReadRows(lines[..n]).1 ==> ReadRows(lines) == ReadRows(lines[..n])
    decreases |lines| - n
  {
    if n == |lines| {
      assert lines[..n] == lines;
    } else {
      StoppedRows(lines, n + 1);
      assert lines[..n + 1][..n] == lines[..n];
    }
  }
}
